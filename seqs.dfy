/** Sequence helpers shared by the model: filtering, order-preserving
    subsequences, first-occurrence deduplication, JavaScript-style slices and
    contiguous occurrence of one sequence inside another. */
module Seqs {

  /** Keeps the elements that satisfy `p`, in order (JavaScript `Array.filter`). */
  function Filter<T>(p: T -> bool, s: seq<T>): (r: seq<T>)
    ensures |r| <= |s|
    ensures forall x :: x in r ==> x in s && p(x)
  {
    if s == [] then []
    else
      assert s == s[..|s| - 1] + [s[|s| - 1]];
      Filter(p, s[..|s| - 1]) + if p(s[|s| - 1]) then [s[|s| - 1]] else []
  }

  /** Filtering by a test every element passes changes nothing. */
  lemma {:induction false} FilterKeepsAll<T>(p: T -> bool, s: seq<T>)
    requires forall i :: 0 <= i < |s| ==> p(s[i])
    ensures Filter(p, s) == s
  {
    if s != [] {
      var init, last := s[..|s| - 1], s[|s| - 1];
      assert forall i :: 0 <= i < |init| ==> p(init[i]) by {
        forall i | 0 <= i < |init| ensures p(init[i]) {
          assert init[i] == s[i];
        }
      }
      FilterKeepsAll(p, init);
      FilterSnoc(p, init, last);
      assert init + [last] == s;
    }
  }

  lemma FilterSnoc<T>(p: T -> bool, s: seq<T>, x: T)
    ensures Filter(p, s + [x]) == Filter(p, s) + if p(x) then [x] else []
  {
    assert (s + [x])[..|s|] == s;
  }

  /** Filtering keeps exactly the occurrences of the elements that satisfy `p`. */
  lemma {:induction false} FilterCount<T>(p: T -> bool, s: seq<T>, x: T)
    ensures multiset(Filter(p, s))[x] == if p(x) then multiset(s)[x] else 0
  {
    if s != [] {
      var init, last := s[..|s| - 1], s[|s| - 1];
      FilterCount(p, init, x);
      assert s == init + [last];
      FilterSnoc(p, init, last);
      assert multiset(s) == multiset(init) + multiset{last};
    }
  }

  lemma FilterMultiset<T>(p: T -> bool, s: seq<T>)
    ensures forall x :: multiset(Filter(p, s))[x] == if p(x) then multiset(s)[x] else 0
  {
    forall x ensures multiset(Filter(p, s))[x] == if p(x) then multiset(s)[x] else 0 {
      FilterCount(p, s, x);
    }
  }

  /** `a` can be obtained from `b` by deleting elements, keeping the order of
      what is left. */
  predicate IsSubseq<T(==)>(a: seq<T>, b: seq<T>)
  {
    a == [] ||
    (b != [] &&
     ((a[|a| - 1] == b[|b| - 1] && IsSubseq(a[..|a| - 1], b[..|b| - 1])) ||
      IsSubseq(a, b[..|b| - 1])))
  }

  /** Appending one element to both sides keeps the subsequence relation. */
  lemma SubseqSnoc<T>(a: seq<T>, b: seq<T>, x: T)
    requires IsSubseq(a, b)
    ensures IsSubseq(a + [x], b + [x])
  {
    assert (a + [x])[..|a|] == a && (b + [x])[..|b|] == b;
  }

  /** Appending an element only to the larger sequence keeps the relation. */
  lemma SubseqExtend<T>(a: seq<T>, b: seq<T>, x: T)
    requires IsSubseq(a, b)
    ensures IsSubseq(a, b + [x])
  {
    assert (b + [x])[..|b|] == b;
  }

  lemma {:induction false} SubseqRefl<T>(a: seq<T>)
    ensures IsSubseq(a, a)
  {
    if a != [] {
      SubseqRefl(a[..|a| - 1]);
    }
  }

  /** Appending a whole sequence to the larger side keeps the relation. */
  lemma {:induction false} SubseqExtendBy<T>(a: seq<T>, b: seq<T>, d: seq<T>)
    requires IsSubseq(a, b)
    ensures IsSubseq(a, b + d)
  {
    if d == [] {
      assert b + d == b;
    } else {
      var init := d[..|d| - 1];
      SubseqExtendBy(a, b, init);
      SubseqExtend(a, b + init, d[|d| - 1]);
      assert (b + init) + [d[|d| - 1]] == b + d;
    }
  }

  /** Subsequences concatenate. */
  lemma {:induction false} SubseqAppend<T>(a: seq<T>, b: seq<T>, c: seq<T>, d: seq<T>)
    requires IsSubseq(a, b) && IsSubseq(c, d)
    ensures IsSubseq(a + c, b + d)
    decreases |d|
  {
    if c == [] {
      assert a + c == a;
      SubseqExtendBy(a, b, d);
    } else {
      var cInit, dInit := c[..|c| - 1], d[..|d| - 1];
      assert d == dInit + [d[|d| - 1]];
      assert b + d == (b + dInit) + [d[|d| - 1]];
      if c[|c| - 1] == d[|d| - 1] && IsSubseq(cInit, dInit) {
        SubseqAppend(a, b, cInit, dInit);
        SubseqSnoc(a + cInit, b + dInit, c[|c| - 1]);
        assert (a + cInit) + [c[|c| - 1]] == a + c;
      } else {
        SubseqAppend(a, b, c, dInit);
        SubseqExtend(a + c, b + dInit, d[|d| - 1]);
      }
    }
  }

  lemma {:induction false} FilterIsSubseq<T>(p: T -> bool, s: seq<T>)
    ensures IsSubseq(Filter(p, s), s)
  {
    if s != [] {
      var init := s[..|s| - 1];
      FilterIsSubseq(p, init);
      assert s == init + [s[|s| - 1]];
      FilterSnoc(p, init, s[|s| - 1]);
      if p(s[|s| - 1]) {
        SubseqSnoc(Filter(p, init), init, s[|s| - 1]);
      } else {
        assert Filter(p, s) == Filter(p, init);
        SubseqExtend(Filter(p, init), init, s[|s| - 1]);
      }
    }
  }

  /** No element occurs twice. */
  predicate NoDuplicates<T(==)>(s: seq<T>)
  {
    forall i, j :: 0 <= i < j < |s| ==> s[i] != s[j]
  }

  /** The distinct elements of `s` in first-occurrence order (JavaScript
      `Array.from(new Set(s))`). */
  function Distinct<T(==)>(s: seq<T>): (r: seq<T>)
    ensures NoDuplicates(r)
    ensures forall x :: x in r ==> x in s
    ensures forall x :: x in s ==> x in r
  {
    if s == [] then []
    else
      var d := Distinct(s[..|s| - 1]);
      assert s == s[..|s| - 1] + [s[|s| - 1]];
      if s[|s| - 1] in d then d else d + [s[|s| - 1]]
  }

  lemma DistinctSnoc<T>(s: seq<T>, x: T)
    ensures Distinct(s + [x]) == if x in Distinct(s) then Distinct(s) else Distinct(s) + [x]
  {
    assert (s + [x])[..|s + [x]| - 1] == s;
  }

  /** A sequence without repeats is its own deduplication. */
  lemma {:induction false} DistinctOfNoDuplicates<T>(s: seq<T>)
    requires NoDuplicates(s)
    ensures Distinct(s) == s
  {
    if s != [] {
      var init := s[..|s| - 1];
      assert NoDuplicates(init);
      DistinctOfNoDuplicates(init);
      assert s[|s| - 1] !in init;
      assert s == init + [s[|s| - 1]];
    }
  }

  lemma {:induction false} DistinctIsSubseq<T>(s: seq<T>)
    ensures IsSubseq(Distinct(s), s)
  {
    if s == [] {
    } else {
      var init := s[..|s| - 1];
      DistinctIsSubseq(init);
      assert s == init + [s[|s| - 1]];
      if s[|s| - 1] in Distinct(init) {
        SubseqExtend(Distinct(init), init, s[|s| - 1]);
      } else {
        SubseqSnoc(Distinct(init), init, s[|s| - 1]);
      }
    }
  }

  /** JavaScript `s.slice(0, n)` for n >= 0. */
  function Take<T>(s: seq<T>, n: nat): (r: seq<T>)
    ensures |r| == if n < |s| then n else |s|
    ensures r <= s
  {
    if n < |s| then s[..n] else s
  }

  /** JavaScript `s.slice(-n)` for n > 0: the last (at most) n elements. */
  function LastN<T>(s: seq<T>, n: nat): (r: seq<T>)
    ensures |r| == if n < |s| then n else |s|
    ensures r == s[|s| - |r|..]
  {
    if n < |s| then s[|s| - n..] else s
  }

  /** JavaScript `s.slice(0, end)` for an integer `end`: a negative end counts
      from the back. */
  function SliceTo<T>(s: seq<T>, end: int): (r: seq<T>)
    ensures r <= s
    ensures 0 <= end ==> |r| == if end < |s| then end else |s|
    ensures end < 0 ==> |r| == if -end < |s| then |s| + end else 0
  {
    if end >= 0 then Take(s, end)
    else if -end < |s| then s[..|s| + end]
    else []
  }

  /** `sub` occurs in `s` starting at index `i`. */
  predicate OccursAt<T(==)>(s: seq<T>, sub: seq<T>, i: int)
  {
    0 <= i && i + |sub| <= |s| && s[i..i + |sub|] == sub
  }

  /** `sub` occurs contiguously somewhere in `s`. */
  ghost predicate HasSlice<T>(s: seq<T>, sub: seq<T>)
  {
    exists i :: OccursAt(s, sub, i)
  }

  /** An occurrence of a sequence is also an occurrence of each of its prefixes. */
  lemma HasSlicePrefix<T>(s: seq<T>, sub: seq<T>, k: nat)
    requires HasSlice(s, sub) && k <= |sub|
    ensures HasSlice(s, sub[..k])
  {
    var i :| OccursAt(s, sub, i);
    assert s[i..i + k] == s[i..i + |sub|][..k];
    assert OccursAt(s, sub[..k], i);
  }

  /** Contiguous containment computed by recursion (JavaScript `String.includes`). */
  function Includes<T(==)>(s: seq<T>, sub: seq<T>): bool
    decreases |s|
  {
    if sub <= s then true
    else if s == [] then false
    else Includes(s[1..], sub)
  }

  /** An occurrence at `i > 0` is an occurrence in the tail at `i - 1`. */
  lemma ShiftOccurrence<T>(s: seq<T>, sub: seq<T>, i: int)
    requires 0 < i && i + |sub| <= |s|
    ensures OccursAt(s, sub, i) <==> OccursAt(s[1..], sub, i - 1)
  {
    assert s[i..i + |sub|] == s[1..][i - 1..i - 1 + |sub|];
  }

  /** `Includes` finds exactly the contiguous occurrences. */
  lemma {:induction false} IncludesIsHasSlice<T>(s: seq<T>, sub: seq<T>)
    ensures Includes(s, sub) <==> HasSlice(s, sub)
    decreases |s|
  {
    if sub <= s {
      assert OccursAt(s, sub, 0);
    } else if s == [] {
      assert forall i :: !OccursAt(s, sub, i);
    } else {
      IncludesIsHasSlice(s[1..], sub);
      if Includes(s[1..], sub) {
        var i :| OccursAt(s[1..], sub, i);
        ShiftOccurrence(s, sub, i + 1);
      }
      if HasSlice(s, sub) {
        var i :| OccursAt(s, sub, i);
        assert i != 0;
        ShiftOccurrence(s, sub, i);
      }
    }
  }

  /** `s` ends with `t` (Python `str.endswith`). */
  predicate EndsWith<T(==)>(s: seq<T>, t: seq<T>)
  {
    |t| <= |s| && s[|s| - |t|..] == t
  }
}
