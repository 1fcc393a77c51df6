/** Collecting the workers' partial results into the final one, in the order
    the workers happen to finish. */
module Merge {
  import opened Failures
  import opened Stats
  import opened Partials

  /** The collecting loop over worker results in arrival order: each result is
      merged into the accumulator; the first failed worker's error is raised
      and whatever was merged so far is dropped. */
  function MergeFrom(acc: Partial, results: seq<Result<Partial>>): (r: Result<Partial>)
    ensures r.Failure? <==> exists i | 0 <= i < |results| :: results[i].Failure?
    ensures r.Failure? ==>
      exists i | 0 <= i < |results| ::
        results[i] == Failure(r.error) && forall j | 0 <= j < i :: results[j].Success?
    decreases |results|
  {
    if results == [] then Success(acc)
    else
      match results[0]
      case Failure(e) => Failure(e)
      case Success(p) => MergeFrom(Merge(acc, p), results[1..])
  }

  /** The inner loop: for every station of the incoming partial result, fetch
      (or create neutral) the accumulator's statistic and combine into it. */
  method MergeInto(acc: Partial, part: Partial) returns (r: Partial)
    ensures r == Merge(acc, part)
  {
    r := acc;
    var remaining := part.Keys;
    while remaining != {}
      invariant remaining <= part.Keys
      invariant r.Keys == acc.Keys + (part.Keys - remaining)
      invariant forall k | k in r ::
        r[k] == if k in part && k !in remaining then Combine(Lookup(acc, k), part[k]) else acc[k]
      decreases remaining
    {
      var station :| station in remaining;
      var data := Lookup(r, station);
      data := Combine(data, part[station]);
      r := r[station := data];
      remaining := remaining - {station};
    }
    MergeShape(acc, part);
    forall k | k in r ensures r[k] == Merge(acc, part)[k] {
      if k !in part {
        CombineNeutral(acc[k]);
      }
    }
  }

  predicate AllSucceeded(results: seq<Result<Partial>>)
  {
    forall i | 0 <= i < |results| :: results[i].Success?
  }

  /** The merge of all the partial results, as a right fold: an order-free
      reference for what the collecting loop computes. */
  function MergeAll(results: seq<Result<Partial>>): Partial
    requires AllSucceeded(results)
    decreases |results|
  {
    if results == [] then map[] else Merge(results[0].value, MergeAll(results[1..]))
  }

  /** The collecting loop fails exactly when some worker failed, and otherwise
      merges every partial result into the accumulator. */
  lemma {:induction false} MergeFromAll(acc: Partial, results: seq<Result<Partial>>)
    ensures MergeFrom(acc, results).Success? <==> AllSucceeded(results)
    ensures AllSucceeded(results) ==> MergeFrom(acc, results) == Success(Merge(acc, MergeAll(results)))
    decreases |results|
  {
    if results == [] {
      MergeIdentity(acc);
    } else {
      match results[0]
      case Failure(e) =>
      case Success(p) =>
        MergeFromAll(Merge(acc, p), results[1..]);
        if AllSucceeded(results[1..]) {
          MergeAssociative(acc, p, MergeAll(results[1..]));
        } else {
          var i :| 0 <= i < |results[1..]| && !results[1..][i].Success?;
          assert results[i + 1] == results[1..][i];
        }
    }
  }

  /** Any one partial result can be merged first. */
  lemma {:induction false} MergeAllPick(results: seq<Result<Partial>>, i: nat)
    requires AllSucceeded(results) && i < |results|
    ensures AllSucceeded(results[..i] + results[i + 1..])
    ensures MergeAll(results) == Merge(results[i].value, MergeAll(results[..i] + results[i + 1..]))
    decreases i
  {
    var others := results[..i] + results[i + 1..];
    DropSucceeded(results, i);
    if i == 0 {
      assert others == results[1..];
    } else {
      var rest := results[1..];
      MergeAllPick(rest, i - 1);
      var others' := rest[..i - 1] + rest[i..];
      DropAfterFirst(results, i);
      MergeSwap(results[0].value, results[i].value, MergeAll(others'));
    }
  }

  lemma DropSucceeded(results: seq<Result<Partial>>, i: nat)
    requires AllSucceeded(results) && i < |results|
    ensures AllSucceeded(results[..i] + results[i + 1..])
  {
    var others := results[..i] + results[i + 1..];
    assert forall k | 0 <= k < |others| :: others[k] == if k < i then results[k] else results[k + 1];
  }

  lemma DropAfterFirst(results: seq<Result<Partial>>, i: nat)
    requires 0 < i < |results|
    ensures (results[..i] + results[i + 1..])[1..] == results[1..][..i - 1] + results[1..][i..]
    ensures (results[..i] + results[i + 1..])[0] == results[0]
  {
    assert results[..i] == [results[0]] + results[1..][..i - 1];
    assert results[i + 1..] == results[1..][i..];
  }

  lemma MergeSwap(a: Partial, b: Partial, c: Partial)
    ensures Merge(a, Merge(b, c)) == Merge(b, Merge(a, c))
  {
    MergeAssociative(a, b, c);
    MergeCommutative(a, b);
    MergeAssociative(b, a, c);
  }

  /** The merge of all results does not depend on their order. */
  lemma {:induction false} MergeAllPermutation(xs: seq<Result<Partial>>, ys: seq<Result<Partial>>)
    requires multiset(xs) == multiset(ys) && AllSucceeded(xs)
    ensures AllSucceeded(ys) && MergeAll(xs) == MergeAll(ys)
    decreases |xs|
  {
    forall j | 0 <= j < |ys| ensures ys[j].Success? {
      assert ys[j] in multiset(xs);
    }
    if xs != [] {
      assert xs[0] in multiset(ys);
      var i :| 0 <= i < |ys| && ys[i] == xs[0];
      var others := ys[..i] + ys[i + 1..];
      assert ys == ys[..i] + [ys[i]] + ys[i + 1..];
      assert xs == [xs[0]] + xs[1..];
      assert multiset(ys) == multiset(ys[..i]) + multiset{ys[i]} + multiset(ys[i + 1..]);
      assert multiset(others) == multiset(ys[..i]) + multiset(ys[i + 1..]);
      assert multiset(xs) == multiset{xs[0]} + multiset(xs[1..]);
      assert multiset(others) == multiset(ys) - multiset{ys[i]};
      assert multiset(xs[1..]) == multiset(xs) - multiset{xs[0]};
      assert AllSucceeded(xs[1..]) by {
        forall k | 0 <= k < |xs[1..]| ensures xs[1..][k].Success? {
          assert xs[1..][k] == xs[k + 1];
        }
      }
      MergeAllPermutation(xs[1..], others);
      MergeAllPick(ys, i);
    } else {
      assert |ys| == |multiset(ys)| == 0;
    }
  }

  /** The final result does not depend on the order in which the workers
      finish: any two arrival orders of the same results both fail or both
      succeed with the same partial result. */
  lemma ArrivalOrderIrrelevant(acc: Partial, xs: seq<Result<Partial>>, ys: seq<Result<Partial>>)
    requires multiset(xs) == multiset(ys)
    ensures SameOutcome(MergeFrom(acc, xs), MergeFrom(acc, ys))
  {
    MergeFromAll(acc, xs);
    MergeFromAll(acc, ys);
    if AllSucceeded(xs) {
      MergeAllPermutation(xs, ys);
    } else if AllSucceeded(ys) {
      MergeAllPermutation(ys, xs);
    }
  }

  /** Merging results in which every station is valid keeps every station
      valid: min <= mean <= max wherever there is a reading. */
  lemma {:induction false} MergeFromValid(acc: Partial, results: seq<Result<Partial>>)
    requires AllValid(acc)
    requires forall i | 0 <= i < |results| :: results[i].Success? ==> AllValid(results[i].value)
    ensures MergeFrom(acc, results).Success? ==> AllValid(MergeFrom(acc, results).value)
    decreases |results|
  {
    if results != [] && results[0].Success? {
      MergeValid(acc, results[0].value);
      assert forall i | 0 <= i < |results[1..]| :: results[1..][i] == results[i + 1];
      MergeFromValid(Merge(acc, results[0].value), results[1..]);
    }
  }
}
