/**
 * The two calls into Python's random module that the program makes. The
 * entropy source is not modelled: each function takes the outcome of the
 * random draws as a parameter, and every outcome the real generator can
 * produce is one of the admissible parameter values.
 */
module Random {
  import opened Seqs

  datatype Result<T> = Success(value: T) | Failure(error: string)

  /**
   * random.choices(population, k=k): k independent picks with replacement.
   * draws(offset + t) is the raw outcome of the t-th pick; it selects
   * population[draws(offset + t) % |population|]. A k of zero or less gives
   * an empty list; picking from an empty population raises IndexError.
   */
  function Choices<T>(population: seq<T>, k: int, draws: nat -> nat, offset: nat): (r: Result<seq<T>>)
    ensures r.Success? <==> k <= 0 || |population| > 0
    ensures r.Success? ==> |r.value| == (if k <= 0 then 0 else k)
    ensures r.Success? ==> forall x :: x in r.value ==> x in population
  {
    if k <= 0 then Success([])
    else if |population| == 0 then Failure("IndexError: cannot choose from an empty sequence")
    else Success(seq(k, t requires 0 <= t < k => population[draws(offset + t) % |population|]))
  }

  /** order lists every position 0 .. n-1 exactly once: one outcome of a random shuffle. */
  predicate IsShuffle(order: seq<nat>, n: nat)
  {
    |order| == n &&
    (forall i :: 0 <= i < n ==> order[i] < n) &&
    (forall i, j :: 0 <= i < j < n ==> order[i] != order[j])
  }

  /** The elements of s at the positions idx, in the order of idx. */
  function Select<T>(s: seq<T>, idx: seq<nat>): (r: seq<T>)
    requires forall t :: 0 <= t < |idx| ==> idx[t] < |s|
    ensures |r| == |idx|
    ensures forall t :: 0 <= t < |idx| ==> r[t] == s[idx[t]]
  {
    seq(|idx|, t requires 0 <= t < |idx| => s[idx[t]])
  }

  /** The positions idx renumbered for s with position m removed. */
  function Shift(idx: seq<nat>, m: nat): (r: seq<nat>)
    ensures |r| == |idx|
    ensures forall t :: 0 <= t < |idx| ==> r[t] == if idx[t] <= m then idx[t] else idx[t] - 1
  {
    seq(|idx|, t requires 0 <= t < |idx| => if idx[t] <= m then idx[t] else idx[t] - 1)
  }

  /** Picking the first position, then the others from what is left. */
  lemma SelectRemoveAt<T>(s: seq<T>, idx: seq<nat>)
    requires forall t :: 0 <= t < |idx| ==> idx[t] < |s|
    requires Distinct(idx) && |idx| > 0
    ensures var shifted := Shift(idx[1..], idx[0]);
      (forall t :: 0 <= t < |shifted| ==> shifted[t] < |s| - 1) && Distinct(shifted) &&
      Select(s, idx) == [s[idx[0]]] + Select(RemoveAt(s, idx[0]), shifted)
  {
    var m := idx[0];
    var rest := idx[1..];
    var shifted := Shift(rest, m);
    forall t | 0 <= t < |rest| ensures rest[t] != m && shifted[t] < |s| - 1 {
      assert rest[t] == idx[t + 1];
    }
    forall t, u | 0 <= t < u < |shifted| ensures shifted[t] != shifted[u] {
      assert rest[t] == idx[t + 1] && rest[u] == idx[u + 1];
    }
    assert Select(s, idx) == [s[m]] + Select(RemoveAt(s, m), shifted);
  }

  /** Picking distinct positions draws without replacement: what is picked is part of s, and
      picking every position picks all of s. */
  lemma {:induction false} SelectMultiset<T>(s: seq<T>, idx: seq<nat>)
    requires forall t :: 0 <= t < |idx| ==> idx[t] < |s|
    requires Distinct(idx)
    ensures multiset(Select(s, idx)) <= multiset(s)
    ensures |idx| == |s| ==> multiset(Select(s, idx)) == multiset(s)
    decreases |idx|
  {
    if |idx| > 0 {
      var m := idx[0];
      var shifted := Shift(idx[1..], m);
      var smaller := RemoveAt(s, m);
      SelectRemoveAt(s, idx);
      SelectMultiset(smaller, shifted);
      MultisetRemoveAt(s, m);
    }
  }

  /**
   * random.sample(population, k): k elements drawn without replacement, in
   * the order drawn. The draw is modelled as a shuffle of the positions of
   * the population, of which the first k are taken. A k outside
   * 0 .. |population| raises ValueError.
   */
  function Sample<T>(population: seq<T>, k: int, order: seq<nat>): (r: Result<seq<T>>)
    requires IsShuffle(order, |population|)
    ensures r.Success? <==> 0 <= k <= |population|
    ensures r.Success? ==> |r.value| == k
    ensures r.Success? ==> forall x :: x in r.value ==> x in population
    ensures r.Success? ==> multiset(r.value) <= multiset(population)
    ensures r.Success? && k == |population| ==> multiset(r.value) == multiset(population)
    ensures r.Success? && Distinct(population) ==> Distinct(r.value)
  {
    if k < 0 || k > |population| then Failure("ValueError: sample larger than population or is negative")
    else
      SelectMultiset(population, order[..k]);
      Success(Select(population, order[..k]))
  }
}
