/** Partial results: one statistic per station. A chunk produces one by folding
    its records in; the file's result is the station-wise merge of all of them. */
module Partials {
  import opened Stats
  import opened Records

  type Partial = map<Station, Stat>

  /** Indexing the defaulting dictionary: the stored statistic, or the neutral
      one for a station not seen yet. */
  function Lookup(m: Partial, k: Station): Stat
  {
    if k in m then m[k] else Neutral
  }

  /** Folding one record into a partial result. */
  function Absorb(m: Partial, rec: Record): (r: Partial)
    ensures r.Keys == m.Keys + {rec.station}
    ensures forall k | k in m && k != rec.station :: r[k] == m[k]
    ensures r[rec.station] == Observe(Lookup(m, rec.station), rec.tenths)
  {
    m[rec.station := Observe(Lookup(m, rec.station), rec.tenths)]
  }

  /** Folding records in, in order. */
  function AbsorbAll(m: Partial, rs: seq<Record>): (r: Partial)
    ensures r.Keys == m.Keys + Stations(rs)
    ensures forall k | k in m && k !in Stations(rs) :: r[k] == m[k]
    decreases |rs|
  {
    if rs == [] then m else AbsorbAll(Absorb(m, rs[0]), rs[1..])
  }

  /** The stations the records mention. */
  function Stations(rs: seq<Record>): set<Station>
  {
    set i | 0 <= i < |rs| :: rs[i].station
  }

  /** Station-wise merge of two partial results. */
  function Merge(a: Partial, b: Partial): (r: Partial)
    ensures r.Keys == a.Keys + b.Keys
  {
    map k | k in a.Keys + b.Keys :: Combine(Lookup(a, k), Lookup(b, k))
  }

  /** The merge has the union of the keys; a station only in the accumulator
      keeps its statistic, and a station of the incoming partial is combined
      with what the accumulator has (or with the neutral statistic). */
  lemma MergeShape(a: Partial, b: Partial)
    ensures Merge(a, b).Keys == a.Keys + b.Keys
    ensures forall k | k in a && k !in b :: Merge(a, b)[k] == a[k]
    ensures forall k | k in b :: Merge(a, b)[k] == Combine(Lookup(a, k), b[k])
  {
    forall k | k in a && k !in b ensures Merge(a, b)[k] == a[k] {
      CombineNeutral(a[k]);
    }
  }

  lemma LookupMerge(a: Partial, b: Partial, k: Station)
    ensures Lookup(Merge(a, b), k) == Combine(Lookup(a, k), Lookup(b, k))
  {
  }

  /** The empty partial result is the identity of the merge. */
  lemma MergeIdentity(a: Partial)
    ensures Merge(a, map[]) == a && Merge(map[], a) == a
  {
    forall k | k in a ensures Combine(a[k], Neutral) == a[k] && Combine(Neutral, a[k]) == a[k] {
      CombineNeutral(a[k]);
    }
  }

  lemma MergeCommutative(a: Partial, b: Partial)
    ensures Merge(a, b) == Merge(b, a)
  {
    forall k | k in a.Keys + b.Keys ensures Combine(Lookup(a, k), Lookup(b, k)) == Combine(Lookup(b, k), Lookup(a, k)) {
      CombineCommutative(Lookup(a, k), Lookup(b, k));
    }
  }

  lemma MergeAssociative(a: Partial, b: Partial, c: Partial)
    ensures Merge(Merge(a, b), c) == Merge(a, Merge(b, c))
  {
    var l, r := Merge(Merge(a, b), c), Merge(a, Merge(b, c));
    forall k | k in l.Keys ensures l[k] == r[k] {
      LookupMerge(a, b, k);
      LookupMerge(b, c, k);
      CombineAssociative(Lookup(a, k), Lookup(b, k), Lookup(c, k));
    }
  }

  /** Folding a record in is merging with the one-station partial result of it. */
  lemma AbsorbIsMerge(m: Partial, rec: Record)
    ensures Absorb(m, rec) == Merge(m, map[rec.station := Single(rec.tenths)])
  {
    var l, r := Absorb(m, rec), Merge(m, map[rec.station := Single(rec.tenths)]);
    forall k | k in l.Keys ensures l[k] == r[k] {
      if k == rec.station {
        ObserveIsCombine(Lookup(m, k), rec.tenths);
      } else {
        CombineNeutral(m[k]);
      }
    }
  }

  /** Folding records into an accumulator is merging the accumulator with the
      partial result of those records alone. */
  lemma {:induction false} AbsorbAllIsMerge(m: Partial, rs: seq<Record>)
    ensures AbsorbAll(m, rs) == Merge(m, AbsorbAll(map[], rs))
    decreases |rs|
  {
    if rs == [] {
      MergeIdentity(m);
    } else {
      var one := map[rs[0].station := Single(rs[0].tenths)];
      var rest := AbsorbAll(map[], rs[1..]);
      AbsorbAllIsMerge(Absorb(m, rs[0]), rs[1..]);
      AbsorbAllIsMerge(Absorb(map[], rs[0]), rs[1..]);
      AbsorbIsMerge(m, rs[0]);
      AbsorbIsMerge(map[], rs[0]);
      MergeIdentity(one);
      MergeAssociative(m, one, rest);
    }
  }

  lemma {:induction false} AbsorbAllAppend(m: Partial, rs1: seq<Record>, rs2: seq<Record>)
    ensures AbsorbAll(m, rs1 + rs2) == AbsorbAll(AbsorbAll(m, rs1), rs2)
    decreases |rs1|
  {
    if rs1 == [] {
      assert rs1 + rs2 == rs2;
    } else {
      assert (rs1 + rs2)[1..] == rs1[1..] + rs2;
      AbsorbAllAppend(Absorb(m, rs1[0]), rs1[1..], rs2);
    }
  }

  /** Every station present has seen a reading and keeps min <= mean <= max. */
  predicate AllValid(m: Partial)
  {
    forall k | k in m :: m[k].Observed? && Valid(m[k])
  }

  lemma MergeValid(a: Partial, b: Partial)
    requires AllValid(a) && AllValid(b)
    ensures AllValid(Merge(a, b))
  {
    forall k | k in a.Keys + b.Keys ensures Valid(Combine(Lookup(a, k), Lookup(b, k))) {
      CombineValid(Lookup(a, k), Lookup(b, k));
    }
  }

  lemma {:induction false} AbsorbAllValid(m: Partial, rs: seq<Record>)
    requires AllValid(m)
    ensures AllValid(AbsorbAll(m, rs))
    decreases |rs|
  {
    if rs != [] {
      ObserveValid(Lookup(m, rs[0].station), rs[0].tenths);
      AbsorbAllValid(Absorb(m, rs[0]), rs[1..]);
    }
  }

  // ---- What a partial result says about one station ----

  /** The readings of station `st` among `rs`, in order. */
  function ReadingsOf(rs: seq<Record>, st: Station): seq<int>
    decreases |rs|
  {
    if rs == [] then []
    else (if rs[0].station == st then [rs[0].tenths] else []) + ReadingsOf(rs[1..], st)
  }

  function SumOf(ts: seq<int>): int
  {
    if ts == [] then 0 else ts[0] + SumOf(ts[1..])
  }

  /** The least reading. */
  function MinOf(ts: seq<int>): (r: int)
    requires ts != []
    ensures r in ts && forall i | 0 <= i < |ts| :: r <= ts[i]
  {
    if |ts| == 1 then ts[0]
    else var m := MinOf(ts[1..]); if ts[0] <= m then ts[0] else m
  }

  /** The greatest reading. */
  function MaxOf(ts: seq<int>): (r: int)
    requires ts != []
    ensures r in ts && forall i | 0 <= i < |ts| :: ts[i] <= r
  {
    if |ts| == 1 then ts[0]
    else var m := MaxOf(ts[1..]); if ts[0] >= m then ts[0] else m
  }

  /** The statistic the readings `ts` should produce: a reference definition
      independent of the order of folding. */
  function Summary(ts: seq<int>): Stat
  {
    if ts == [] then Neutral else Observed(MinOf(ts), SumOf(ts), MaxOf(ts), |ts|)
  }

  /** Folding readings one by one into `s` yields `s` combined with their summary. */
  lemma {:induction false} ObserveAllSummary(s: Stat, ts: seq<int>)
    ensures ObserveAll(s, ts) == Combine(s, Summary(ts))
    decreases |ts|
  {
    if ts == [] {
      CombineNeutral(s);
    } else {
      ObserveAllSummary(Observe(s, ts[0]), ts[1..]);
      ObserveIsCombine(s, ts[0]);
      CombineAssociative(s, Single(ts[0]), Summary(ts[1..]));
      if ts[1..] != [] {
        assert Combine(Single(ts[0]), Summary(ts[1..])) == Summary(ts);
      } else {
        assert SumOf(ts) == ts[0] + SumOf([]);
        assert Summary(ts) == Single(ts[0]);
        CombineNeutral(Single(ts[0]));
      }
    }
  }

  function ObserveAll(s: Stat, ts: seq<int>): Stat
    decreases |ts|
  {
    if ts == [] then s else ObserveAll(Observe(s, ts[0]), ts[1..])
  }

  /** A station's statistic after folding records in is its statistic before,
      with that station's readings folded in and nothing else. */
  lemma {:induction false} AbsorbAllStation(m: Partial, rs: seq<Record>, st: Station)
    ensures Lookup(AbsorbAll(m, rs), st) == ObserveAll(Lookup(m, st), ReadingsOf(rs, st))
    decreases |rs|
  {
    if rs != [] {
      AbsorbAllStation(Absorb(m, rs[0]), rs[1..], st);
      if rs[0].station == st {
        assert ReadingsOf(rs, st) == [rs[0].tenths] + ReadingsOf(rs[1..], st);
      } else {
        assert ReadingsOf(rs, st) == ReadingsOf(rs[1..], st);
      }
    }
  }

  /** The result of folding records into the empty map holds, for every
      station, the count, sum, least and greatest of exactly that station's
      readings; stations without readings are absent. */
  lemma PartialOfRecords(rs: seq<Record>, st: Station)
    ensures Lookup(AbsorbAll(map[], rs), st) == Summary(ReadingsOf(rs, st))
    ensures st in AbsorbAll(map[], rs) <==> ReadingsOf(rs, st) != []
  {
    AbsorbAllStation(map[], rs, st);
    ObserveAllSummary(Neutral, ReadingsOf(rs, st));
    CombineNeutral(Summary(ReadingsOf(rs, st)));
    AbsorbAllValid(map[], rs);
  }
}
