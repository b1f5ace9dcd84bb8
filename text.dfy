/**
  Rust's `str::replace(from, to)` for a non-empty pattern: the string is scanned
  left to right, every non-overlapping occurrence of `from` is replaced by `to`,
  and the text between occurrences is copied unchanged.
 */
module Text {

  /** `p` occurs in `s` starting at index `i`. */
  predicate OccursAt(s: string, p: string, i: int)
  {
    0 <= i <= |s| && p <= s[i..]
  }

  /** `p` occurs somewhere in `s`. */
  predicate Contains(s: string, p: string)
  {
    exists i | 0 <= i <= |s| :: OccursAt(s, p, i)
  }

  /** `s.replace(from, to)`. */
  function Replace(s: string, from: string, to: string): string
    requires |from| > 0
    decreases |s|
  {
    if s == [] then []
    else if from <= s then to + Replace(s[|from|..], from, to)
    else [s[0]] + Replace(s[1..], from, to)
  }

  /** The number of occurrences `Replace` rewrites: leftmost first, never overlapping. */
  function Matches(s: string, from: string): nat
    requires |from| > 0
    decreases |s|
  {
    if s == [] then 0
    else if from <= s then 1 + Matches(s[|from|..], from)
    else Matches(s[1..], from)
  }

  /** A sequence is a prefix of a non-empty one exactly when it agrees on the head and on the tails. */
  lemma PrefixHeadTail(q: string, t: string)
    requires q != [] && t != []
    ensures q <= t <==> q[0] == t[0] && q[1..] <= t[1..]
  {
    assert q == [q[0]] + q[1..];
    assert t == [t[0]] + t[1..];
  }

  /** Occurrences in a suffix are occurrences in the whole, shifted. */
  lemma OccursShift(s: string, p: string, k: nat, i: nat)
    requires k <= |s|
    ensures OccursAt(s[k..], p, i) <==> OccursAt(s, p, i + k)
  {
    if 0 <= i <= |s| - k {
      assert s[k..][i..] == s[i + k..];
    }
  }

  /** A suffix of a string without `p` has no `p` either. */
  lemma SuffixLacks(s: string, p: string, k: nat)
    requires k <= |s|
    requires !Contains(s, p)
    ensures !Contains(s[k..], p)
  {
    forall i | 0 <= i <= |s[k..]|
      ensures !OccursAt(s[k..], p, i)
    {
      OccursShift(s, p, k, i);
    }
  }

  /**
    A prefix that is not in `s` and that does not contain the first character
    of the replacement is not in the result either: `Replace` never produces
    such a prefix out of nothing.
   */
  lemma {:induction false} ReplacedNotPrefix(s: string, from: string, to: string, q: string)
    requires |from| > 0 && |to| > 0
    requires to[0] !in q
    requires !(q <= s)
    ensures !(q <= Replace(s, from, to))
    decreases |s|
  {
    if s == [] {
    } else if from <= s {
      assert q != [];
      assert q[0] in q;
    } else if q != [] && q[0] == s[0] {
      PrefixHeadTail(q, s);
      assert to[0] !in q[1..] by {
        forall c | c in q[1..] ensures c in q { }
      }
      ReplacedNotPrefix(s[1..], from, to, q[1..]);
      var r := Replace(s, from, to);
      assert r == [s[0]] + Replace(s[1..], from, to);
      PrefixHeadTail(q, r);
    }
  }

  /** Without an occurrence of `from`, `Replace` returns its input. */
  lemma {:induction false} ReplaceWithoutMatch(s: string, from: string, to: string)
    requires |from| > 0
    requires !Contains(s, from)
    ensures Replace(s, from, to) == s
    decreases |s|
  {
    if s != [] {
      assert !OccursAt(s, from, 0);
      assert s[0..] == s;
      SuffixLacks(s, from, 1);
      ReplaceWithoutMatch(s[1..], from, to);
    }
  }

  /** A string shorter than the pattern is returned unchanged. */
  lemma {:induction false} ReplaceShort(s: string, from: string, to: string)
    requires |from| > 0
    requires |s| < |from|
    ensures Replace(s, from, to) == s
    decreases |s|
  {
    if s != [] {
      ReplaceShort(s[1..], from, to);
    }
  }

  /** A leading part in which the pattern's first character never appears is copied as it is. */
  lemma {:induction false} ReplaceAfterPlain(a: string, b: string, from: string, to: string)
    requires |from| > 0
    requires from[0] !in a
    ensures Replace(a + b, from, to) == a + Replace(b, from, to)
    decreases |a|
  {
    if a != [] {
      assert (a + b)[0] == a[0];
      assert (a + b)[1..] == a[1..] + b;
      assert from[0] !in a[1..] by {
        forall c | c in a[1..] ensures c in a { }
      }
      ReplaceAfterPlain(a[1..], b, from, to);
    } else {
      assert a + b == b;
    }
  }

  /** Where a string disagrees with the pattern, its first character is copied as it is. */
  lemma ReplaceAtMismatch(s: string, from: string, to: string, k: nat)
    requires |from| > 0
    requires k < |s| && k < |from| && s[k] != from[k]
    ensures Replace(s, from, to) == [s[0]] + Replace(s[1..], from, to)
  {
    assert !(from <= s);
  }

  /** A leading copy of the pattern is replaced, and the rest is rewritten on its own. */
  lemma ReplaceAfterPattern(b: string, from: string, to: string)
    requires |from| > 0
    ensures Replace(from + b, from, to) == to + Replace(b, from, to)
  {
    assert (from + b)[|from|..] == b;
  }

  /**
    When the replacement cannot start or complete an occurrence of the
    pattern, the result holds no occurrence of the pattern at all.
   */
  lemma {:induction false} ReplaceRemoves(s: string, from: string, to: string)
    requires |from| > 0 && |to| > 0
    requires from[0] !in to
    requires to[0] !in from[1..]
    ensures !Contains(Replace(s, from, to), from)
    decreases |s|
  {
    var r := Replace(s, from, to);
    if s == [] {
    } else if from <= s {
      var rest := Replace(s[|from|..], from, to);
      ReplaceRemoves(s[|from|..], from, to);
      assert r == to + rest;
      forall i | 0 <= i <= |r|
        ensures !OccursAt(r, from, i)
      {
        if i < |to| {
          assert r[i] == to[i];
          assert to[i] in to;
        } else {
          assert r[i..] == rest[i - |to|..];
          assert !OccursAt(rest, from, i - |to|);
        }
      }
    } else {
      var rest := Replace(s[1..], from, to);
      ReplaceRemoves(s[1..], from, to);
      assert r == [s[0]] + rest;
      forall i | 0 <= i <= |r|
        ensures !OccursAt(r, from, i)
      {
        if i == 0 {
          if s[0] == from[0] {
            PrefixHeadTail(from, s);
            ReplacedNotPrefix(s[1..], from, to, from[1..]);
            assert r[0..] == r;
            PrefixHeadTail(from, r);
          } else {
            assert r[0] == s[0];
          }
        } else {
          assert r[i..] == rest[i - 1..];
          assert !OccursAt(rest, from, i - 1);
        }
      }
    }
  }

  /** Under the same conditions, rewriting twice is rewriting once. */
  lemma ReplaceIdempotent(s: string, from: string, to: string)
    requires |from| > 0 && |to| > 0
    requires from[0] !in to
    requires to[0] !in from[1..]
    ensures Replace(Replace(s, from, to), from, to) == Replace(s, from, to)
  {
    ReplaceRemoves(s, from, to);
    ReplaceWithoutMatch(Replace(s, from, to), from, to);
  }

  /**
    Rewriting back undoes the rewrite, as long as the input held no copy of the
    replacement and the replacement cannot overlap itself at its first
    character.
   */
  lemma {:induction false} ReplaceInverse(s: string, from: string, to: string)
    requires |from| > 0 && |to| > 0
    requires to[0] !in to[1..]
    requires !Contains(s, to)
    ensures Replace(Replace(s, from, to), to, from) == s
    decreases |s|
  {
    var r := Replace(s, from, to);
    if s == [] {
    } else if from <= s {
      var rest := s[|from|..];
      SuffixLacks(s, to, |from|);
      ReplaceInverse(rest, from, to);
      assert r == to + Replace(rest, from, to);
      assert r[|to|..] == Replace(rest, from, to);
      assert s == from + rest;
    } else {
      var rest := s[1..];
      SuffixLacks(s, to, 1);
      ReplaceInverse(rest, from, to);
      assert r == [s[0]] + Replace(rest, from, to);
      assert !OccursAt(s, to, 0);
      assert s[0..] == s;
      if s[0] == to[0] {
        PrefixHeadTail(to, s);
        ReplacedNotPrefix(rest, from, to, to[1..]);
        PrefixHeadTail(to, r);
      }
      assert r[1..] == Replace(rest, from, to);
      assert s == [s[0]] + rest;
    }
  }

  /** Each rewritten occurrence changes the length by `|to| - |from|`. */
  lemma {:induction false} ReplaceLength(s: string, from: string, to: string)
    requires |from| > 0
    ensures |Replace(s, from, to)| == |s| + Matches(s, from) * (|to| - |from|)
    decreases |s|
  {
    if s == [] {
    } else if from <= s {
      ReplaceLength(s[|from|..], from, to);
      var m := Matches(s[|from|..], from);
      assert (1 + m) * (|to| - |from|) == m * (|to| - |from|) + (|to| - |from|);
    } else {
      ReplaceLength(s[1..], from, to);
    }
  }

  /** `Replace` rewrites something exactly when the pattern occurs. */
  lemma {:induction false} MatchesCountsOccurrence(s: string, from: string)
    requires |from| > 0
    ensures Matches(s, from) > 0 <==> Contains(s, from)
    decreases |s|
  {
    if s == [] {
      assert !OccursAt(s, from, 0);
    } else if from <= s {
      assert s[0..] == s;
      assert OccursAt(s, from, 0);
    } else {
      MatchesCountsOccurrence(s[1..], from);
      assert s[0..] == s;
      assert !OccursAt(s, from, 0);
      if Contains(s, from) {
        var i :| 0 <= i <= |s| && OccursAt(s, from, i);
        OccursShift(s, from, 1, i - 1);
      }
      if Contains(s[1..], from) {
        var i :| 0 <= i <= |s[1..]| && OccursAt(s[1..], from, i);
        OccursShift(s, from, 1, i);
      }
    }
  }
}
