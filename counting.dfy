/**
  Per-identifier value counts of one value column: what
  `df.groupby(user_col)[col].value_counts()` computes, and the
  `unstack(fill_value=0)` table built from it.
*/
module Counting {
  import opened Wrappers
  import opened Seqs

  /**
    One data row as seen by a value column: the row's identifier and its cell
    after numeric coercion (None where coercion failed or the cell was empty).
  */
  datatype Obs = Obs(key: string, value: Option<real>)

  /** How many rows of identifier `k` hold the value `v`. */
  function Count(obs: seq<Obs>, k: string, v: real): nat {
    if obs == [] then 0
    else Count(obs[..|obs| - 1], k, v) + (if obs[|obs| - 1] == Obs(k, Some(v)) then 1 else 0)
  }

  /** How many rows of identifier `k` hold any value at all. */
  function NonMissing(obs: seq<Obs>, k: string): nat {
    if obs == [] then 0
    else NonMissing(obs[..|obs| - 1], k) + (if obs[|obs| - 1].key == k && obs[|obs| - 1].value.Some? then 1 else 0)
  }

  /** The non-missing values of the column, in row order. */
  function Present(obs: seq<Obs>): (vs: seq<real>)
    ensures forall i :: 0 <= i < |obs| && obs[i].value.Some? ==> obs[i].value.value in vs
    ensures forall v :: v in vs ==> exists i :: 0 <= i < |obs| && obs[i].value == Some(v)
  {
    if obs == [] then []
    else
      var p := Present(obs[..|obs| - 1]);
      var o := obs[|obs| - 1];
      assert forall i :: 0 <= i < |obs| - 1 ==> obs[..|obs| - 1][i] == obs[i];
      if o.value.Some? then p + [o.value.value] else p
  }

  /** The distinct values seen anywhere in the column, each once. */
  function Values(obs: seq<Obs>): (vs: seq<real>)
    ensures NoDup(vs)
    ensures forall v :: v in vs <==> v in Present(obs)
  {
    Unique(Present(obs))
  }

  /** Count agrees with the multiplicity of the observation in the column. */
  lemma {:induction false} CountIsMultiplicity(obs: seq<Obs>, k: string, v: real)
    ensures Count(obs, k, v) == multiset(obs)[Obs(k, Some(v))]
  {
    if obs != [] {
      var n := |obs| - 1;
      CountIsMultiplicity(obs[..n], k, v);
      assert obs == obs[..n] + [obs[n]];
    }
  }

  /** A count is positive exactly when some row of `k` holds `v`. */
  lemma CountPositiveIff(obs: seq<Obs>, k: string, v: real)
    ensures Count(obs, k, v) > 0 <==> Obs(k, Some(v)) in obs
  {
  }

  /** Reordering the rows changes no count. */
  lemma CountsIgnoreRowOrder(obs: seq<Obs>, obs': seq<Obs>, k: string, v: real)
    requires multiset(obs) == multiset(obs')
    ensures Count(obs, k, v) == Count(obs', k, v)
  {
    CountIsMultiplicity(obs, k, v);
    CountIsMultiplicity(obs', k, v);
  }

  /** A column in which every cell is missing has no values and no non-missing rows. */
  lemma {:induction false} AllMissing(obs: seq<Obs>, k: string)
    requires forall i :: 0 <= i < |obs| ==> obs[i].value == None
    ensures Present(obs) == [] && NonMissing(obs, k) == 0
  {
    if obs != [] {
      AllMissing(obs[..|obs| - 1], k);
    }
  }

  /** No single value is counted more often than `k` has non-missing rows. */
  lemma {:induction false} CountAtMostNonMissing(obs: seq<Obs>, k: string, v: real)
    ensures Count(obs, k, v) <= NonMissing(obs, k)
  {
    if obs != [] {
      CountAtMostNonMissing(obs[..|obs| - 1], k, v);
    }
  }

  /** The sum of the counts of `k` over the values `vs`. */
  function SumCounts(obs: seq<Obs>, k: string, vs: seq<real>): nat {
    if vs == [] then 0 else Count(obs, k, vs[0]) + SumCounts(obs, k, vs[1..])
  }

  /** Counting over an empty column gives zero for every value. */
  lemma {:induction false} SumCountsEmpty(k: string, vs: seq<real>)
    ensures SumCounts([], k, vs) == 0
  {
    if vs != [] {
      SumCountsEmpty(k, vs[1..]);
    }
  }

  /** Adding one row adds to the sum once for each time its value occurs in `vs`. */
  lemma {:induction false} SumCountsSnoc(obs: seq<Obs>, o: Obs, k: string, vs: seq<real>)
    ensures SumCounts(obs + [o], k, vs)
         == SumCounts(obs, k, vs) + (if o.key == k && o.value.Some? then Occurrences(vs, o.value.value) else 0)
  {
    if vs != [] {
      SumCountsSnoc(obs, o, k, vs[1..]);
      assert (obs + [o])[..|obs + [o]| - 1] == obs;
      assert vs == [vs[0]] + vs[1..];
      assert multiset(vs) == multiset{vs[0]} + multiset(vs[1..]);
    }
  }

  /** A duplicate-free sequence holds each of its elements once. */
  lemma OccursOnce(vs: seq<real>, x: real)
    requires NoDup(vs) && x in vs
    ensures Occurrences(vs, x) == 1
  {
    var i :| 0 <= i < |vs| && vs[i] == x;
    assert vs == vs[..i] + [x] + vs[i + 1..];
    assert x !in vs[..i] && x !in vs[i + 1..] by {
      forall j | 0 <= j < |vs| && j != i ensures vs[j] != x { }
    }
  }

  /** Summing `k`'s counts over any duplicate-free list of all the column's values gives `k`'s non-missing rows. */
  lemma {:induction false} SumCountsCovers(obs: seq<Obs>, k: string, vs: seq<real>)
    requires NoDup(vs)
    requires forall v :: v in Present(obs) ==> v in vs
    ensures SumCounts(obs, k, vs) == NonMissing(obs, k)
  {
    if obs == [] {
      SumCountsEmpty(k, vs);
    } else {
      var n := |obs| - 1;
      var p, o := obs[..n], obs[n];
      assert obs == p + [o];
      assert forall v :: v in Present(p) ==> v in Present(obs);
      SumCountsCovers(p, k, vs);
      SumCountsSnoc(p, o, k, vs);
      if o.key == k && o.value.Some? {
        OccursOnce(vs, o.value.value);
      }
    }
  }

  /**
    Conservation: over the column's distinct values, the counts of `k` add up
    to the number of `k`'s rows whose cell coerced to a number.
  */
  lemma Conservation(obs: seq<Obs>, k: string)
    ensures SumCounts(obs, k, Values(obs)) == NonMissing(obs, k)
  {
    SumCountsCovers(obs, k, Values(obs));
  }

  /** The identifiers that occur in the column. */
  function Keys(obs: seq<Obs>): set<string> {
    set o | o in obs :: o.key
  }

  /** An identifier with a non-missing row occurs in the column. */
  lemma {:induction false} NonMissingKey(obs: seq<Obs>, k: string)
    requires NonMissing(obs, k) > 0
    ensures k in Keys(obs)
  {
    var n := |obs| - 1;
    if NonMissing(obs[..n], k) > 0 {
      NonMissingKey(obs[..n], k);
      var o :| o in obs[..n] && o.key == k;
      assert o in obs;
    } else {
      assert obs[n] in obs;
    }
  }

  /**
    `groupby(...).value_counts().unstack(fill_value=0)`: one row per identifier
    with at least one non-missing value, one column per value seen anywhere in
    the column, absent combinations 0.
  */
  function CountsFrame(obs: seq<Obs>): (f: map<string, map<real, nat>>)
    ensures forall k :: k in f <==> NonMissing(obs, k) > 0
    ensures forall k :: k in f ==> forall v :: v in f[k] <==> v in Present(obs)
    ensures forall k, v :: k in f && v in f[k] ==> f[k][v] == Count(obs, k, v)
  {
    forall k | NonMissing(obs, k) > 0 ensures k in Keys(obs) {
      NonMissingKey(obs, k);
    }
    map k | k in Keys(obs) && NonMissing(obs, k) > 0 :: map v | v in Values(obs) :: Count(obs, k, v)
  }
}
