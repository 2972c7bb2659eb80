/**
 * The two generators of Python's itertools that the program uses, specified by
 * their documented output order rather than by CPython's implementation:
 *  - permutations(s) emits every arrangement of all of s, in lexicographic
 *    order of positions in s (first all arrangements headed by s[0], then
 *    those headed by s[1], ...; the tail recursively in the same order);
 *  - combinations(s, 2) emits (s[i], s[j]) for i < j, in lexicographic order
 *    of (i, j).
 */
module Itertools {
  import opened Seqs

  function Factorial(n: nat): (r: nat)
    ensures r >= 1
  {
    if n == 0 then 1 else n * Factorial(n - 1)
  }

  /** Puts x in front of each sequence of ps. */
  function Prepend<T>(x: T, ps: seq<seq<T>>): seq<seq<T>>
  {
    seq(|ps|, k requires 0 <= k < |ps| => [x] + ps[k])
  }

  /** itertools.permutations(s) (full length), as a list of sequences. */
  function Permutations<T>(s: seq<T>): seq<seq<T>>
    decreases |s|, 1
  {
    if |s| == 0 then [[]] else PermutationsFrom(s, 0)
  }

  /** The arrangements of s whose head is taken from position i or later, in order. */
  function PermutationsFrom<T>(s: seq<T>, i: nat): seq<seq<T>>
    requires i <= |s|
    decreases |s|, 0, |s| - i
  {
    if i == |s| then []
    else Prepend(s[i], Permutations(RemoveAt(s, i))) + PermutationsFrom(s, i + 1)
  }

  /** itertools.combinations(s, 2), as a list of ordered pairs. */
  function Pairs<T>(s: seq<T>): seq<(T, T)>
  {
    if |s| == 0 then []
    else seq(|s| - 1, k requires 0 <= k < |s| - 1 => (s[0], s[k + 1])) + Pairs(s[1..])
  }

  /** Strict lexicographic order on sequences, elements compared by rank. */
  predicate LexBefore<T(==)>(rank: T -> int, a: seq<T>, b: seq<T>)
  {
    |a| > 0 && |b| > 0 &&
    (rank(a[0]) < rank(b[0]) || (a[0] == b[0] && LexBefore(rank, a[1..], b[1..])))
  }

  /** The ranks of the elements of s strictly increase along s. */
  predicate IncreasingBy<T>(rank: T -> int, s: seq<T>)
  {
    forall i, j :: 0 <= i < j < |s| ==> rank(s[i]) < rank(s[j])
  }

  /** Every earlier sequence of ps is lexicographically before every later one. */
  predicate StrictlyOrdered<T(==)>(rank: T -> int, ps: seq<seq<T>>)
  {
    forall i, j :: 0 <= i < j < |ps| ==> LexBefore(rank, ps[i], ps[j])
  }

  // ---------------------------------------------------------------- permutations

  lemma PrependMember<T>(x: T, ps: seq<seq<T>>, p: seq<T>)
    ensures p in Prepend(x, ps) <==> |p| > 0 && p[0] == x && p[1..] in ps
  {
    if p in Prepend(x, ps) {
      var k :| 0 <= k < |ps| && Prepend(x, ps)[k] == p;
      assert p[1..] == ps[k];
    }
    if |p| > 0 && p[0] == x && p[1..] in ps {
      var k :| 0 <= k < |ps| && ps[k] == p[1..];
      assert Prepend(x, ps)[k] == p;
    }
  }

  /** p is s[j] followed by an arrangement of the rest of s. */
  predicate HeadedBy<T(==)>(s: seq<T>, j: nat, p: seq<T>)
    requires j < |s|
  {
    |p| > 0 && p[0] == s[j] && p[1..] in Permutations(RemoveAt(s, j))
  }

  /** A sequence is emitted by PermutationsFrom(s, i) exactly when its head is s[j] for some j >= i
      and its tail is an arrangement of the rest. */
  lemma {:induction false} PermutationsFromMember<T>(s: seq<T>, i: nat, p: seq<T>)
    requires i <= |s|
    ensures p in PermutationsFrom(s, i) <==> exists j :: i <= j < |s| && HeadedBy(s, j, p)
    decreases |s| - i
  {
    if i < |s| {
      var block := Prepend(s[i], Permutations(RemoveAt(s, i)));
      var later := PermutationsFrom(s, i + 1);
      assert PermutationsFrom(s, i) == block + later;
      PermutationsFromMember(s, i + 1, p);
      PrependMember(s[i], Permutations(RemoveAt(s, i)), p);
      if p in block {
        assert HeadedBy(s, i, p);
      }
      if exists j :: i <= j < |s| && HeadedBy(s, j, p) {
        var j :| i <= j < |s| && HeadedBy(s, j, p);
        if j == i {
          assert p in block;
        } else {
          assert p in later;
        }
      }
    }
  }

  /** Soundness and completeness of permutations: it emits exactly the rearrangements of s. */
  lemma PermutationsExactly<T>(s: seq<T>, p: seq<T>)
    ensures p in Permutations(s) <==> multiset(p) == multiset(s)
  {
    if p in Permutations(s) {
      PermutationsSound(s, p);
    }
    if multiset(p) == multiset(s) {
      PermutationsComplete(s, p);
    }
  }

  lemma {:induction false} PermutationsSound<T>(s: seq<T>, p: seq<T>)
    requires p in Permutations(s)
    ensures multiset(p) == multiset(s)
    decreases |s|
  {
    if |s| > 0 {
      PermutationsFromMember(s, 0, p);
      var j :| 0 <= j < |s| && HeadedBy(s, j, p);
      var rest := RemoveAt(s, j);
      PermutationsSound(rest, p[1..]);
      MultisetRemoveAt(s, j);
      calc {
        multiset(p);
        { assert p == [p[0]] + p[1..]; }
        multiset{p[0]} + multiset(p[1..]);
        multiset{s[j]} + multiset(rest);
        multiset(s);
      }
    }
  }

  lemma {:induction false} PermutationsComplete<T>(s: seq<T>, p: seq<T>)
    requires multiset(p) == multiset(s)
    ensures p in Permutations(s)
    decreases |s|
  {
    assert |p| == |multiset(p)| == |s|;
    if |s| == 0 {
      assert p == [];
    } else {
      assert p[0] in multiset(s);
      var j :| 0 <= j < |s| && s[j] == p[0];
      MultisetRemoveAt(s, j);
      assert p == [p[0]] + p[1..];
      assert multiset(p) == multiset{p[0]} + multiset(p[1..]);
      assert multiset(p[1..]) == multiset(p) - multiset{p[0]};
      assert multiset(p[1..]) == multiset(RemoveAt(s, j));
      PermutationsComplete(RemoveAt(s, j), p[1..]);
      assert HeadedBy(s, j, p);
      PermutationsFromMember(s, 0, p);
    }
  }

  /** permutations(s) has |s|! entries. */
  lemma {:induction false} PermutationsCount<T>(s: seq<T>)
    ensures |Permutations(s)| == Factorial(|s|)
    decreases |s|, 1
  {
    if |s| > 0 {
      PermutationsFromCount(s, 0);
    }
  }

  lemma {:induction false} PermutationsFromCount<T>(s: seq<T>, i: nat)
    requires 0 < |s| && i <= |s|
    ensures |PermutationsFrom(s, i)| == (|s| - i) * Factorial(|s| - 1)
    decreases |s|, 0, |s| - i
  {
    if i < |s| {
      PermutationsCount(RemoveAt(s, i));
      PermutationsFromCount(s, i + 1);
      var f := Factorial(|s| - 1);
      assert (|s| - i) * f == f + (|s| - i - 1) * f;
    }
  }

  lemma {:induction false} PrependOrdered<T>(rank: T -> int, x: T, ps: seq<seq<T>>)
    requires StrictlyOrdered(rank, ps)
    ensures StrictlyOrdered(rank, Prepend(x, ps))
  {
    forall i, j | 0 <= i < j < |ps|
      ensures LexBefore(rank, Prepend(x, ps)[i], Prepend(x, ps)[j])
    {
      assert Prepend(x, ps)[i][1..] == ps[i];
      assert Prepend(x, ps)[j][1..] == ps[j];
    }
  }

  /** When the ranks increase along s, permutations(s) comes out in strictly increasing
      lexicographic order, so in particular no arrangement is emitted twice. */
  lemma {:induction false} PermutationsOrdered<T>(rank: T -> int, s: seq<T>)
    requires IncreasingBy(rank, s)
    ensures StrictlyOrdered(rank, Permutations(s))
    decreases |s|, 1
  {
    if |s| > 0 {
      PermutationsFromOrdered(rank, s, 0);
    }
  }

  lemma {:induction false} PermutationsFromOrdered<T>(rank: T -> int, s: seq<T>, i: nat)
    requires IncreasingBy(rank, s) && i <= |s|
    ensures StrictlyOrdered(rank, PermutationsFrom(s, i))
    decreases |s|, 0, |s| - i
  {
    if i < |s| {
      var rest := RemoveAt(s, i);
      PermutationsOrdered(rank, rest);
      PrependOrdered(rank, s[i], Permutations(rest));
      PermutationsFromOrdered(rank, s, i + 1);
      var block := Prepend(s[i], Permutations(rest));
      var later := PermutationsFrom(s, i + 1);
      forall a, b | 0 <= a < |block| <= b < |block| + |later|
        ensures LexBefore(rank, (block + later)[a], (block + later)[b])
      {
        var q := later[b - |block|];
        PermutationsFromMember(s, i + 1, q);
        var j :| i + 1 <= j < |s| && HeadedBy(s, j, q);
        assert block[a][0] == s[i];
      }
    }
  }

  /** LexBefore is irreflexive. */
  lemma {:induction false} LexBeforeIrreflexive<T>(rank: T -> int, a: seq<T>)
    ensures !LexBefore(rank, a, a)
  {
    if |a| > 0 {
      LexBeforeIrreflexive(rank, a[1..]);
    }
  }

  lemma StrictlyOrderedDistinct<T>(rank: T -> int, ps: seq<seq<T>>)
    requires StrictlyOrdered(rank, ps)
    ensures Distinct(ps)
  {
    forall i, j | 0 <= i < j < |ps| ensures ps[i] != ps[j] {
      LexBeforeIrreflexive(rank, ps[i]);
    }
  }

  /** Position in a duplicate-free s increases along s. */
  lemma IndexOfIncreasing<T>(s: seq<T>)
    requires Distinct(s)
    ensures IncreasingBy(x => IndexOf(s, x), s)
  {
    forall i | 0 <= i < |s| ensures IndexOf(s, s[i]) == i {
    }
  }

  /** Permutations of a duplicate-free sequence come out in lexicographic order of
      positions in s, with no arrangement twice. */
  lemma PermutationsByPosition<T>(s: seq<T>)
    requires Distinct(s)
    ensures StrictlyOrdered(x => IndexOf(s, x), Permutations(s))
    ensures Distinct(Permutations(s))
  {
    IndexOfIncreasing(s);
    PermutationsOrdered(x => IndexOf(s, x), s);
    StrictlyOrderedDistinct(x => IndexOf(s, x), Permutations(s));
  }

  lemma PrependOne<T>(x: T, p: seq<T>)
    ensures Prepend(x, [p]) == [[x] + p]
  {
    assert Prepend(x, [p])[0] == [x] + p;
  }

  lemma PrependTwo<T>(x: T, p: seq<T>, q: seq<T>)
    ensures Prepend(x, [p, q]) == [[x] + p, [x] + q]
  {
    assert Prepend(x, [p, q])[0] == [x] + p;
    assert Prepend(x, [p, q])[1] == [x] + q;
  }

  lemma PermutationsOfOne<T>(a: T)
    ensures Permutations([a]) == [[a]]
  {
    assert RemoveAt([a], 0) == [];
    assert Permutations(RemoveAt([a], 0)) == [[]];
    assert [a] + [] == [a];
    assert Prepend(a, [[]]) == [[a]];
    assert PermutationsFrom([a], 1) == [];
  }

  /** The documented example: permutations of (a, b, c) in the order abc, acb, bac, bca, cab, cba. */
  lemma PermutationsOfThree<T>(a: T, b: T, c: T)
    ensures Permutations([a, b, c]) == [[a, b, c], [a, c, b], [b, a, c], [b, c, a], [c, a, b], [c, b, a]]
  {
    var s := [a, b, c];
    assert RemoveAt(s, 0) == [b, c];
    assert RemoveAt(s, 1) == [a, c];
    assert RemoveAt(s, 2) == [a, b];
    PermutationsOfTwo(b, c);
    PermutationsOfTwo(a, c);
    PermutationsOfTwo(a, b);
    PrependTwo(a, [b, c], [c, b]);
    PrependTwo(b, [a, c], [c, a]);
    PrependTwo(c, [a, b], [b, a]);
    assert [a] + [b, c] == [a, b, c] && [a] + [c, b] == [a, c, b];
    assert [b] + [a, c] == [b, a, c] && [b] + [c, a] == [b, c, a];
    assert [c] + [a, b] == [c, a, b] && [c] + [b, a] == [c, b, a];
    assert PermutationsFrom(s, 3) == [];
    assert PermutationsFrom(s, 2) == [[c, a, b], [c, b, a]];
    assert PermutationsFrom(s, 1) == [[b, a, c], [b, c, a], [c, a, b], [c, b, a]];
  }

  lemma PermutationsOfTwo<T>(a: T, b: T)
    ensures Permutations([a, b]) == [[a, b], [b, a]]
  {
    var s := [a, b];
    assert RemoveAt(s, 0) == [b];
    assert RemoveAt(s, 1) == [a];
    PermutationsOfOne(a);
    PermutationsOfOne(b);
    PrependOne(a, [b]);
    PrependOne(b, [a]);
    assert [a] + [b] == [a, b] && [b] + [a] == [b, a];
    assert PermutationsFrom(s, 2) == [];
    assert PermutationsFrom(s, 1) == [[b, a]];
  }

  // ---------------------------------------------------------------- combinations

  /** combinations(s, 2) emits exactly the pairs (s[i], s[j]) with i < j. */
  lemma {:induction false} PairsExactly<T>(s: seq<T>, a: T, b: T)
    ensures (a, b) in Pairs(s) <==> exists i, j :: 0 <= i < j < |s| && s[i] == a && s[j] == b
  {
    if |s| > 0 {
      PairsExactly(s[1..], a, b);
      var head := seq(|s| - 1, k requires 0 <= k < |s| - 1 => (s[0], s[k + 1]));
      assert Pairs(s) == head + Pairs(s[1..]);
      if (a, b) in head {
        var k :| 0 <= k < |head| && head[k] == (a, b);
        assert s[0] == a && s[k + 1] == b;
      }
      if (a, b) in Pairs(s[1..]) {
        var i, j :| 0 <= i < j < |s| - 1 && s[1..][i] == a && s[1..][j] == b;
        assert s[i + 1] == a && s[j + 1] == b;
      }
      if exists i, j :: 0 <= i < j < |s| && s[i] == a && s[j] == b {
        var i, j :| 0 <= i < j < |s| && s[i] == a && s[j] == b;
        if i == 0 {
          assert head[j - 1] == (a, b);
        } else {
          assert s[1..][i - 1] == a && s[1..][j - 1] == b;
        }
      }
    }
  }

  /** combinations(s, 2) has C(|s|, 2) entries. */
  lemma {:induction false} PairsCount<T>(s: seq<T>)
    ensures |Pairs(s)| == |s| * (|s| - 1) / 2
  {
    if |s| > 0 {
      PairsCount(s[1..]);
      var n := |s|;
      assert (n - 1) * (n - 2) + 2 * (n - 1) == n * (n - 1);
      assert |Pairs(s)| == (n - 1) + (n - 1) * (n - 2) / 2;
    }
  }

  /** Over a duplicate-free s, combinations(s, 2) repeats no pair and never pairs an element with itself. */
  lemma {:induction false} PairsDistinct<T>(s: seq<T>)
    requires Distinct(s)
    ensures Distinct(Pairs(s))
    ensures forall e :: e in Pairs(s) ==> e.0 != e.1
  {
    if |s| > 0 {
      PairsDistinct(s[1..]);
      var head := seq(|s| - 1, k requires 0 <= k < |s| - 1 => (s[0], s[k + 1]));
      var tail := Pairs(s[1..]);
      assert Pairs(s) == head + tail;
      forall e | e in tail ensures e.0 != s[0] {
        PairsExactly(s[1..], e.0, e.1);
      }
      forall i, j | 0 <= i < j < |head + tail| ensures (head + tail)[i] != (head + tail)[j] {
        if j >= |head| && i < |head| {
          assert (head + tail)[j] in tail;
        }
      }
    }
  }
}
