/** The per-station running statistic `[min, sum, max, count]` and the two ways
    it changes: folding in one temperature, and combining two partial
    statistics. Temperatures are integer tenths, so every operation is exact. */
module Stats {

  /** `Neutral` is the list `[inf, 0, -inf, 0]` every station starts from;
      `Observed` is a station with at least one reading. */
  datatype Stat = Neutral | Observed(min: int, sum: int, max: int, count: nat)

  function Count(s: Stat): nat
  {
    if s.Neutral? then 0 else s.count
  }

  function Total(s: Stat): int
  {
    if s.Neutral? then 0 else s.sum
  }

  /** What every statistic built from readings satisfies: at least one reading,
      `min <= max`, and the mean `sum / count` lies between them. */
  predicate Valid(s: Stat)
  {
    s.Observed? ==> 1 <= s.count && s.min <= s.max && s.min * s.count <= s.sum <= s.max * s.count
  }

  /** The statistic of a single reading. */
  function Single(t: int): Stat
  {
    Observed(t, t, t, 1)
  }

  /** Folding one reading into a station's statistic: lower the minimum and
      raise the maximum when the reading is beyond them, add it to the sum,
      count it. Against `Neutral` both comparisons succeed, as they do against
      the infinities of `[inf, 0, -inf, 0]`. */
  function Observe(s: Stat, t: int): (r: Stat)
    ensures r.Observed? && r.min <= t <= r.max
    ensures s.Observed? ==> r.min <= s.min && s.max <= r.max
    ensures r.min == t || (s.Observed? && r.min == s.min)
    ensures r.max == t || (s.Observed? && r.max == s.max)
    ensures Count(r) == Count(s) + 1 && Total(r) == Total(s) + t
  {
    match s
    case Neutral => Observed(t, t, t, 1)
    case Observed(lo, sum, hi, c) =>
      Observed(if lo > t then t else lo, sum + t, if hi < t then t else hi, c + 1)
  }

  /** Merging two partial statistics of one station: the smaller minimum, the
      larger maximum, sums and counts added. */
  function Combine(a: Stat, b: Stat): (r: Stat)
    ensures r.Observed? <==> a.Observed? || b.Observed?
    ensures a.Observed? ==> r.min <= a.min && a.max <= r.max
    ensures b.Observed? ==> r.min <= b.min && b.max <= r.max
    ensures r.Observed? ==> (a.Observed? && r.min == a.min) || (b.Observed? && r.min == b.min)
    ensures r.Observed? ==> (a.Observed? && r.max == a.max) || (b.Observed? && r.max == b.max)
    ensures Count(r) == Count(a) + Count(b) && Total(r) == Total(a) + Total(b)
  {
    match (a, b)
    case (Neutral, _) => b
    case (_, Neutral) => a
    case (Observed(lo1, s1, hi1, c1), Observed(lo2, s2, hi2, c2)) =>
      Observed(if lo1 > lo2 then lo2 else lo1, s1 + s2, if hi1 < hi2 then hi2 else hi1, c1 + c2)
  }

  /** `Neutral` is the identity of `Combine`, on either side. */
  lemma CombineNeutral(a: Stat)
    ensures Combine(a, Neutral) == a && Combine(Neutral, a) == a
  {
  }

  lemma CombineCommutative(a: Stat, b: Stat)
    ensures Combine(a, b) == Combine(b, a)
  {
  }

  lemma CombineAssociative(a: Stat, b: Stat, c: Stat)
    ensures Combine(Combine(a, b), c) == Combine(a, Combine(b, c))
  {
  }

  /** Folding in a reading is combining with the statistic of that reading alone. */
  lemma ObserveIsCombine(s: Stat, t: int)
    ensures Observe(s, t) == Combine(s, Single(t))
  {
  }

  lemma MulMonotone(x: int, y: int, c: nat)
    requires x <= y
    ensures x * c <= y * c
  {
    assert y * c - x * c == (y - x) * c;
  }

  /** Combining keeps min <= mean <= max. */
  lemma CombineValid(a: Stat, b: Stat)
    requires Valid(a) && Valid(b)
    ensures Valid(Combine(a, b))
  {
    if a.Observed? && b.Observed? {
      var r := Combine(a, b);
      MulMonotone(r.min, a.min, a.count);
      MulMonotone(r.min, b.min, b.count);
      MulMonotone(a.max, r.max, a.count);
      MulMonotone(b.max, r.max, b.count);
      assert r.min * r.count == r.min * a.count + r.min * b.count;
      assert r.max * r.count == r.max * a.count + r.max * b.count;
    }
  }

  lemma ObserveValid(s: Stat, t: int)
    requires Valid(s)
    ensures Valid(Observe(s, t))
  {
    ObserveIsCombine(s, t);
    CombineValid(s, Single(t));
  }
}
