/** The driver: plan one byte range per worker, run a worker per range, and
    collect the partial results in the order the workers finish. */
module File {
  import opened Bytes
  import opened Failures
  import opened Records
  import opened Stats
  import opened Partials
  import opened Chunk
  import opened Planner
  import opened Merge

  function Indices(n: nat): (r: seq<nat>)
    ensures |r| == n && forall i | 0 <= i < n :: r[i] == i
  {
    seq(n, i => i)
  }

  /** `arrival` names every chunk number below `n` exactly once: the order in
      which the finished workers are handed back. */
  predicate IsArrivalOrder(arrival: seq<nat>, n: nat)
  {
    multiset(arrival) == multiset(Indices(n))
  }

  lemma ArrivalInRange(arrival: seq<nat>, n: nat)
    requires IsArrivalOrder(arrival, n)
    ensures |arrival| == n
    ensures forall j | 0 <= j < |arrival| :: arrival[j] < n
  {
    forall j | 0 <= j < |arrival| ensures arrival[j] < n {
      assert arrival[j] in multiset(Indices(n));
    }
    assert |arrival| == |multiset(arrival)| == |multiset(Indices(n))| == n;
  }

  /** The elements of `xs` in the order `arrival` lists their positions. */
  function InOrder<T>(xs: seq<T>, arrival: seq<nat>): (r: seq<T>)
    requires forall j | 0 <= j < |arrival| :: arrival[j] < |xs|
    ensures |r| == |arrival| && forall j | 0 <= j < |arrival| :: r[j] == xs[arrival[j]]
  {
    seq(|arrival|, j requires 0 <= j < |arrival| => xs[arrival[j]])
  }

  lemma InOrderAppend<T>(xs: seq<T>, a: seq<nat>, b: seq<nat>)
    requires forall j | 0 <= j < |a| :: a[j] < |xs|
    requires forall j | 0 <= j < |b| :: b[j] < |xs|
    ensures InOrder(xs, a + b) == InOrder(xs, a) + InOrder(xs, b)
  {
  }

  lemma InOrderPrefix<T>(xs: seq<T>, k: nat, a: seq<nat>)
    requires k <= |xs| && forall j | 0 <= j < |a| :: a[j] < k
    ensures InOrder(xs[..k], a) == InOrder(xs, a)
  {
  }

  /** An arrival order of `n > 0` chunks is one of `n - 1` chunks with
      chunk `n - 1` inserted somewhere. */
  lemma SplitArrival(arrival: seq<nat>, n: nat) returns (front: seq<nat>, back: seq<nat>)
    requires n > 0 && IsArrivalOrder(arrival, n)
    ensures arrival == front + [n - 1] + back
    ensures IsArrivalOrder(front + back, n - 1)
    ensures forall j | 0 <= j < |front| :: front[j] < n - 1
    ensures forall j | 0 <= j < |back| :: back[j] < n - 1
  {
    assert Indices(n)[n - 1] == n - 1;
    assert n - 1 in multiset(arrival);
    var j :| 0 <= j < |arrival| && arrival[j] == n - 1;
    front, back := arrival[..j], arrival[j + 1..];
    assert arrival == front + [arrival[j]] + back;
    RemoveLast(arrival, front, back, n);
    ArrivalInRange(front + back, n - 1);
    BoundedParts(front, back, n - 1);
  }

  lemma RemoveLast(arrival: seq<nat>, front: seq<nat>, back: seq<nat>, n: nat)
    requires n > 0 && arrival == front + [n - 1] + back
    requires IsArrivalOrder(arrival, n)
    ensures IsArrivalOrder(front + back, n - 1)
  {
    var last := multiset{(n - 1) as nat};
    assert Indices(n) == Indices(n - 1) + [n - 1];
    assert multiset(Indices(n)) == multiset(Indices(n - 1)) + last;
    assert multiset(arrival) == multiset(front) + last + multiset(back);
    assert multiset(front + back) == multiset(front) + multiset(back);
    assert multiset(front + back) + last == multiset(Indices(n - 1)) + last;
    assert multiset(front + back) == (multiset(front + back) + last) - last;
  }

  lemma BoundedParts(a: seq<nat>, b: seq<nat>, m: nat)
    requires forall j | 0 <= j < |a + b| :: (a + b)[j] < m
    ensures forall j | 0 <= j < |a| :: a[j] < m
    ensures forall j | 0 <= j < |b| :: b[j] < m
  {
    assert forall j | 0 <= j < |a| :: a[j] == (a + b)[j];
    assert forall j | 0 <= j < |b| :: b[j] == (a + b)[|a| + j];
  }

  /** Where chunk `n - 1` sits in an arrival order, its result sits in the
      collected sequence. */
  lemma InOrderInsert<T>(xs: seq<T>, arrival: seq<nat>, a: seq<nat>, b: seq<nat>)
    requires |xs| > 0 && arrival == a + [|xs| - 1] + b
    requires forall j | 0 <= j < |a| :: a[j] < |xs| - 1
    requires forall j | 0 <= j < |b| :: b[j] < |xs| - 1
    ensures forall j | 0 <= j < |arrival| :: arrival[j] < |xs|
    ensures InOrder(xs, arrival)
         == InOrder(xs[..|xs| - 1], a) + [xs[|xs| - 1]] + InOrder(xs[..|xs| - 1], b)
  {
    var n := |xs|;
    InOrderAppend(xs, a + [n - 1], b);
    InOrderAppend(xs, a, [n - 1]);
    InOrderPrefix(xs, n - 1, a);
    InOrderPrefix(xs, n - 1, b);
  }

  /** Taking the elements in an arrival order is a permutation. */
  lemma {:induction false} MultisetInOrder<T>(xs: seq<T>, arrival: seq<nat>)
    requires IsArrivalOrder(arrival, |xs|)
    ensures forall j | 0 <= j < |arrival| :: arrival[j] < |xs|
    ensures multiset(InOrder(xs, arrival)) == multiset(xs)
    decreases |xs|
  {
    ArrivalInRange(arrival, |xs|);
    var n := |xs|;
    if n > 0 {
      var a, b := SplitArrival(arrival, n);
      var front := xs[..n - 1];
      MultisetInOrder(front, a + b);
      InOrderAppend(front, a, b);
      InOrderInsert(xs, arrival, a, b);
      var left, right := InOrder(front, a), InOrder(front, b);
      assert multiset(InOrder(xs, arrival)) == multiset(left) + multiset{xs[n - 1]} + multiset(right);
      assert multiset(front) == multiset(left) + multiset(right);
      assert xs == front + [xs[n - 1]];
    }
  }

  /** What each worker returns, by chunk number. */
  function ChunkResults(buf: seq<byte>, n: nat): (rs: seq<Result<Partial>>)
    requires n >= 1
    ensures |rs| == n
  {
    var plan := PlanChunks(|buf|, n);
    seq(n, i requires 0 <= i < n => ChunkResult(buf, plan[i].start, plan[i].end))
  }

  /** The result of the whole run when the workers finish in the order
      `arrival`. A pool of zero workers is refused. */
  function FileResult(buf: seq<byte>, n: nat, arrival: seq<nat>): Result<Partial>
    requires IsArrivalOrder(arrival, n)
  {
    if n == 0 then Failure(NoWorkers)
    else
      ArrivalInRange(arrival, n);
      MergeFrom(map[], InOrder(ChunkResults(buf, n), arrival))
  }

  /** The driver. Workers run one after another here; `arrival` stands for the
      completion order in which their results are collected. */
  method ProcessFile(buf: seq<byte>, n: nat, arrival: seq<nat>) returns (r: Result<Partial>)
    requires IsArrivalOrder(arrival, n)
    ensures r == FileResult(buf, n, arrival)
  {
    if n == 0 {
      return Failure(NoWorkers);
    }
    var plan := PlanChunks(|buf|, n);
    var results: seq<Result<Partial>> := [];
    for i := 0 to n
      invariant results == ChunkResults(buf, n)[..i]
    {
      var res := ProcessChunk(buf, plan[i].start, plan[i].end);
      results := results + [res];
    }
    assert results == ChunkResults(buf, n);
    ArrivalInRange(arrival, n);
    ghost var order := InOrder(results, arrival);
    var acc: Partial := map[];
    for j := 0 to |arrival|
      invariant MergeFrom(acc, order[j..]) == FileResult(buf, n, arrival)
    {
      assert order[j..][1..] == order[j + 1..];
      var res := results[arrival[j]];
      if res.Failure? {
        return Failure(res.error);
      }
      acc := MergeInto(acc, res.value);
    }
    return Success(acc);
  }

  /** The final result does not depend on the order in which workers finish. */
  lemma CompletionOrderIrrelevant(buf: seq<byte>, n: nat, a1: seq<nat>, a2: seq<nat>)
    requires IsArrivalOrder(a1, n) && IsArrivalOrder(a2, n)
    ensures SameOutcome(FileResult(buf, n, a1), FileResult(buf, n, a2))
  {
    if n > 0 {
      var rs := ChunkResults(buf, n);
      MultisetInOrder(rs, a1);
      MultisetInOrder(rs, a2);
      ArrivalOrderIrrelevant(map[], InOrder(rs, a1), InOrder(rs, a2));
    }
  }

  /** Every station of a successful final result has a reading and keeps
      min <= mean <= max. */
  lemma FileResultValid(buf: seq<byte>, n: nat, arrival: seq<nat>)
    requires IsArrivalOrder(arrival, n)
    ensures FileResult(buf, n, arrival).Success? ==> AllValid(FileResult(buf, n, arrival).value)
  {
    if n > 0 {
      ArrivalInRange(arrival, n);
      var plan := PlanChunks(|buf|, n);
      var order := InOrder(ChunkResults(buf, n), arrival);
      forall i | 0 <= i < |order| ensures order[i].Success? ==> AllValid(order[i].value) {
        ChunkResultValid(buf, plan[arrival[i]].start, plan[arrival[i]].end);
      }
      MergeFromValid(map[], order);
    }
  }

  // ---- Which lines the workers read ----

  /** The lines worker `i` reads. */
  function WorkerLines(buf: seq<byte>, n: nat, i: nat): (qs: seq<nat>)
    requires 1 <= n && i < n
    ensures WithinFile(buf, qs)
  {
    var plan := PlanChunks(|buf|, n);
    ChunkLines(buf, plan[i].start, plan[i].end)
  }

  /** The lines of workers `i`, `i + 1`, ..., `n - 1`, in chunk order. */
  function LinesOfWorkers(buf: seq<byte>, n: nat, i: nat): (qs: seq<nat>)
    requires 1 <= n && i <= n
    ensures WithinFile(buf, qs)
    decreases n - i
  {
    if i == n then []
    else
      var qs := WorkerLines(buf, n, i) + LinesOfWorkers(buf, n, i + 1);
      ParseLinesAppend(buf, WorkerLines(buf, n, i), LinesOfWorkers(buf, n, i + 1));
      qs
  }

  /** No planned boundary falls just after a newline, i.e. on the first byte
      of a record. */
  predicate NoBoundaryAfterNewline(buf: seq<byte>, n: nat)
    requires n >= 1
  {
    var plan := PlanChunks(|buf|, n);
    forall i | 0 < i < n :: !AfterNewline(buf, plan[i].start)
  }

  /** Where the last range ends: the part of the file the workers cover. */
  function PlannedEnd(size: nat, n: nat): (e: nat)
    requires n >= 1
    ensures e <= size && size - e < n
  {
    PlanChunks(size, n)[n - 1].end
  }

  /** Workers `i` to `n - 1` read, between them and in order, exactly the
      lines a single reader of `[start of range i, planned end)` reads. */
  lemma {:induction false} WorkersCoverLines(buf: seq<byte>, n: nat, i: nat)
    requires 1 <= n && i < n && NoBoundaryAfterNewline(buf, n)
    ensures LinesOfWorkers(buf, n, i) == ChunkLines(buf, PlanChunks(|buf|, n)[i].start, PlannedEnd(|buf|, n))
    decreases n - i
  {
    var plan := PlanChunks(|buf|, n);
    if i == n - 1 {
      assert LinesOfWorkers(buf, n, i) == WorkerLines(buf, n, i) + [];
    } else {
      WorkersCoverLines(buf, n, i + 1);
      assert !AfterNewline(buf, plan[i + 1].start);
      AdjacentChunks(buf, plan[i].start, plan[i].end, plan[n - 1].end);
    }
  }

  lemma {:induction false} InLinesOfWorkers(buf: seq<byte>, n: nat, i: nat, q: nat)
    requires 1 <= n && i <= n && q in LinesOfWorkers(buf, n, i)
    ensures exists j | i <= j < n :: q in WorkerLines(buf, n, j)
    decreases n - i
  {
    if q !in WorkerLines(buf, n, i) {
      InLinesOfWorkers(buf, n, i + 1, q);
    }
  }

  /** Lines of an earlier worker all come before lines of a later one, so no
      line is read by two workers. */
  lemma WorkersDisjoint(buf: seq<byte>, n: nat, i: nat, j: nat, q: nat)
    requires 1 <= n && i < j < n
    ensures !(q in WorkerLines(buf, n, i) && q in WorkerLines(buf, n, j))
  {
    var plan := PlanChunks(|buf|, n);
    assert plan[i].end <= plan[j - 1].end == plan[j].start;
  }

  /** With no boundary on the first byte of a record, every record that begins
      before the planned end is read by exactly one worker. */
  lemma EveryRecordReadOnce(buf: seq<byte>, n: nat, q: nat)
    requires n >= 1 && NoBoundaryAfterNewline(buf, n)
    requires IsRecordStart(buf, q) && q < PlannedEnd(|buf|, n)
    ensures exists i | 0 <= i < n :: q in WorkerLines(buf, n, i)
    ensures forall i, j | 0 <= i < n && 0 <= j < n && q in WorkerLines(buf, n, i) && q in WorkerLines(buf, n, j) :: i == j
  {
    WorkersCoverLines(buf, n, 0);
    LinesAreRecordStarts(buf, 0, PlannedEnd(|buf|, n), q);
    InLinesOfWorkers(buf, n, 0, q);
    forall i, j | 0 <= i < n && 0 <= j < n && q in WorkerLines(buf, n, i) && q in WorkerLines(buf, n, j)
      ensures i == j
    {
      if i < j {
        WorkersDisjoint(buf, n, i, j, q);
      } else if j < i {
        WorkersDisjoint(buf, n, j, i, q);
      }
    }
  }

  /** A boundary that falls on the first byte of a record loses that record:
      neither the worker ending there nor any other reads it. */
  lemma BoundaryRecordLost(buf: seq<byte>, n: nat, i: nat)
    requires 1 <= n && 0 < i < n
    requires AfterNewline(buf, PlanChunks(|buf|, n)[i].start) && PlanChunks(|buf|, n)[i].start < |buf|
    ensures IsRecordStart(buf, PlanChunks(|buf|, n)[i].start)
    ensures forall j | 0 <= j < n :: PlanChunks(|buf|, n)[i].start !in WorkerLines(buf, n, j)
  {
    var plan := PlanChunks(|buf|, n);
    var m := plan[i].start;
    forall j | 0 <= j < n ensures m !in WorkerLines(buf, n, j) {
      if j < i {
        assert plan[j].end <= plan[i - 1].end == m;
      } else if j > i {
        assert m < plan[i].end <= plan[j - 1].end == plan[j].start;
      }
    }
  }

  /** Records that begin at or after the planned end, in the last `size % n`
      bytes, are read by no worker. */
  lemma RemainderNeverRead(buf: seq<byte>, n: nat, q: nat)
    requires n >= 1 && PlannedEnd(|buf|, n) <= q
    ensures forall j | 0 <= j < n :: q !in WorkerLines(buf, n, j)
  {
    var plan := PlanChunks(|buf|, n);
    forall j | 0 <= j < n ensures q !in WorkerLines(buf, n, j) {
      assert plan[j].end <= plan[n - 1].end;
    }
  }

  // ---- What the workers compute together ----

  /** Collecting workers `i` to `n - 1` in chunk order is parsing all their
      lines in order and folding them into the accumulator. */
  lemma {:induction false} WorkersFoldLines(buf: seq<byte>, n: nat, i: nat, acc: Partial)
    requires 1 <= n && i <= n && 0 < |buf|
    ensures MergeFrom(acc, ChunkResults(buf, n)[i..]) == AbsorbParsed(ParseLines(buf, LinesOfWorkers(buf, n, i)), acc)
    decreases n - i
  {
    var rs := ChunkResults(buf, n);
    if i == n {
      assert rs[i..] == [];
    } else {
      var plan := PlanChunks(|buf|, n);
      var here, rest := WorkerLines(buf, n, i), LinesOfWorkers(buf, n, i + 1);
      ChunkResultReadsLines(buf, plan[i].start, plan[i].end);
      assert rs[i] == AbsorbParsed(ParseLines(buf, here), map[]);
      assert rs[i..][0] == rs[i] && rs[i..][1..] == rs[i + 1..];
      ParseLinesAppend(buf, here, rest);
      match ParseLines(buf, here)
      case Failure(e) =>
      case Success(rs1) =>
        AbsorbAllIsMerge(acc, rs1);
        WorkersFoldLines(buf, n, i + 1, AbsorbAll(acc, rs1));
        match ParseLines(buf, rest)
        case Failure(e) =>
        case Success(rs2) =>
          AbsorbAllAppend(acc, rs1, rs2);
    }
  }

  /** Chunk-boundary correctness: with no boundary on the first byte of a
      record, `n` workers in any completion order compute what one reader of
      `[0, planned end)` computes. */
  lemma SplitMatchesSingleRange(buf: seq<byte>, n: nat, arrival: seq<nat>)
    requires n >= 1 && IsArrivalOrder(arrival, n) && NoBoundaryAfterNewline(buf, n)
    ensures SameOutcome(FileResult(buf, n, arrival), ChunkResult(buf, 0, PlannedEnd(|buf|, n)))
  {
    var rs := ChunkResults(buf, n);
    MultisetInOrder(rs, arrival);
    assert IsArrivalOrder(Indices(n), n);
    ArrivalInRange(Indices(n), n);
    assert InOrder(rs, Indices(n)) == rs;
    CompletionOrderIrrelevant(buf, n, arrival, Indices(n));
    if |buf| == 0 {
      assert rs[0] == Failure(EmptyFile);
    } else {
      WorkersFoldLines(buf, n, 0, map[]);
      assert rs[0..] == rs;
      WorkersCoverLines(buf, n, 0);
      ChunkResultReadsLines(buf, 0, PlannedEnd(|buf|, n));
    }
  }

  /** A single worker reads every record of the file. */
  lemma OneWorkerReadsEveryRecord(buf: seq<byte>, q: nat)
    ensures IsArrivalOrder([0], 1) && FileResult(buf, 1, [0]) == ChunkResult(buf, 0, |buf|)
    ensures q in WorkerLines(buf, 1, 0) <==> IsRecordStart(buf, q)
  {
    assert Indices(1) == [0];
    var rs := ChunkResults(buf, 1);
    assert PlanChunks(|buf|, 1)[0] == Range(0, |buf|);
    assert InOrder(rs, [0]) == [rs[0]];
    LinesAreRecordStarts(buf, 0, |buf|, q);
    assert rs[0] == ChunkResult(buf, 0, |buf|);
    if rs[0].Success? {
      MergeIdentity(rs[0].value);
      assert [rs[0]][1..] == [];
      assert MergeFrom(map[], [rs[0]]) == MergeFrom(rs[0].value, []);
    }
  }

  /** When no record begins in the unplanned remainder (for instance when
      the size is a multiple of `n`) and no boundary falls on the first byte
      of a record, `n` workers compute what one worker computes. */
  lemma SameAsOneWorker(buf: seq<byte>, n: nat, arrival: seq<nat>)
    requires n >= 1 && IsArrivalOrder(arrival, n) && NoBoundaryAfterNewline(buf, n)
    requires forall q | PlannedEnd(|buf|, n) <= q :: !IsRecordStart(buf, q)
    ensures IsArrivalOrder([0], 1) && SameOutcome(FileResult(buf, n, arrival), FileResult(buf, 1, [0]))
  {
    SplitMatchesSingleRange(buf, n, arrival);
    OneWorkerReadsEveryRecord(buf, 0);
    var e := PlannedEnd(|buf|, n);
    if |buf| > 0 {
      NothingBeyond(buf, e);
      ChunkResultReadsLines(buf, 0, e);
      ChunkResultReadsLines(buf, 0, |buf|);
    }
  }

  lemma NothingBeyond(buf: seq<byte>, e: nat)
    requires e <= |buf|
    requires forall q | e <= q :: !IsRecordStart(buf, q)
    ensures LinesFrom(buf, 0, |buf|) == LinesFrom(buf, 0, e)
  {
    LinesSplit(buf, 0, e, |buf|);
    var c := Cross(buf, 0, e);
    var tail := LinesFrom(buf, c, |buf|);
    if tail != [] {
      LinesAreRecordStarts(buf, c, |buf|, tail[0]);
      assert false;
    }
    assert LinesFrom(buf, 0, |buf|) == LinesFrom(buf, 0, e) + [];
  }

  /** With no boundary on the first byte of a record, a successful run returns,
      for every station, the count, sum, least and greatest of exactly that
      station's readings on the lines that begin before the planned end. */
  lemma FinalResultSummarisesRecords(buf: seq<byte>, n: nat, arrival: seq<nat>, st: Station)
    requires n >= 1 && IsArrivalOrder(arrival, n) && NoBoundaryAfterNewline(buf, n)
    requires FileResult(buf, n, arrival).Success?
    ensures ParseLines(buf, LinesFrom(buf, 0, PlannedEnd(|buf|, n))).Success?
    ensures
      var rs := ParseLines(buf, LinesFrom(buf, 0, PlannedEnd(|buf|, n))).value;
      Lookup(FileResult(buf, n, arrival).value, st) == Summary(ReadingsOf(rs, st))
  {
    var e := PlannedEnd(|buf|, n);
    SplitMatchesSingleRange(buf, n, arrival);
    ChunkResultReadsLines(buf, 0, e);
    ChunkStationSummary(buf, 0, e, st);
  }
}
