/** One worker: align the start of its byte range to a line, then read line
    after line while the position is below the end of the range, folding each
    record into the chunk's partial result. */
module Chunk {
  import opened Bytes
  import opened Failures
  import opened Records
  import opened Stats
  import opened Partials

  /** The position at which a chunk starting at `start` reads its first line.
      For `start > 0` the reader seeks to `start - 1`, reads that byte and
      then, because the byte read (a bytes value) is compared with the text
      '\n' and the two are never equal, always discards the rest of the line:
      it begins just past the first newline at or after `start`, or at the end
      of the file when no newline follows. */
  function ChunkBegin(buf: seq<byte>, start: nat): (b: nat)
    requires start <= |buf| + 1
    ensures AtLineBoundary(buf, b)
    ensures start == 0 ==> b == 0
    ensures 0 < start <= |buf| ==> start <= b && (start < |buf| ==> start < b)
    ensures 0 < start && b < |buf| ==> 0 < b && buf[b - 1] == NL
    ensures 0 < start ==> forall k | start <= k < b - 1 :: buf[k] != NL
  {
    if start == 0 then 0
    else
      var seekPos := start - 1;
      var afterRead := if seekPos < |buf| then seekPos + 1 else seekPos;
      NextLineEnd(buf, afterRead)
  }

  /** The chunk loop from position `p` with accumulator `acc`: the first line
      that fails to parse aborts with its error, and no partial result is
      returned. A line read at the very end of the file is empty and fails. */
  function FoldLines(buf: seq<byte>, p: nat, end: nat, acc: Partial): Result<Partial>
    requires p <= |buf|
    decreases |buf| - p
  {
    if p >= end then Success(acc)
    else
      var next := NextLineEnd(buf, p);
      match ParseRecord(buf[p..next])
      case Failure(e) => Failure(e)
      case Success(rec) => FoldLines(buf, next, end, Absorb(acc, rec))
  }

  /** What the worker for the byte range `[start, end)` returns. Mapping an
      empty file fails, and so does seeking more than one byte past the end. */
  function ChunkResult(buf: seq<byte>, start: nat, end: nat): Result<Partial>
  {
    if |buf| == 0 then Failure(EmptyFile)
    else if start > |buf| + 1 then Failure(SeekOutOfRange)
    else FoldLines(buf, ChunkBegin(buf, start), end, map[])
  }

  /** The worker itself, with the file position as a local variable and the
      per-station dictionary as a map updated in place. */
  method ProcessChunk(buf: seq<byte>, start: nat, end: nat) returns (r: Result<Partial>)
    ensures r == ChunkResult(buf, start, end)
  {
    if |buf| == 0 {
      return Failure(EmptyFile);
    }
    var pos: nat;
    if start > 0 {
      if start - 1 > |buf| {
        return Failure(SeekOutOfRange);
      }
      pos := start - 1;
      if pos < |buf| {
        pos := pos + 1;
      }
      pos := NextLineEnd(buf, pos);
    } else {
      pos := start;
    }
    var acc: Partial := map[];
    while pos < end
      invariant pos <= |buf|
      invariant FoldLines(buf, pos, end, acc) == ChunkResult(buf, start, end)
      decreases |buf| - pos
    {
      var next := NextLineEnd(buf, pos);
      var line := buf[pos..next];
      pos := next;
      var parsed := ParseRecord(line);
      if parsed.Failure? {
        return Failure(parsed.error);
      }
      var rec := parsed.value;
      var data := Lookup(acc, rec.station);
      data := Observe(data, rec.tenths);
      acc := acc[rec.station := data];
    }
    return Success(acc);
  }

  /** Every station of a successful chunk result has a reading and keeps
      min <= mean <= max. */
  lemma {:induction false} FoldLinesValid(buf: seq<byte>, p: nat, end: nat, acc: Partial)
    requires p <= |buf| && AllValid(acc)
    ensures FoldLines(buf, p, end, acc).Success? ==> AllValid(FoldLines(buf, p, end, acc).value)
    decreases |buf| - p
  {
    if p < end {
      var next := NextLineEnd(buf, p);
      match ParseRecord(buf[p..next])
      case Failure(e) =>
      case Success(rec) =>
        ObserveValid(Lookup(acc, rec.station), rec.tenths);
        FoldLinesValid(buf, next, end, Absorb(acc, rec));
    }
  }

  lemma ChunkResultValid(buf: seq<byte>, start: nat, end: nat)
    ensures ChunkResult(buf, start, end).Success? ==> AllValid(ChunkResult(buf, start, end).value)
  {
    if 0 < |buf| && start <= |buf| + 1 {
      FoldLinesValid(buf, ChunkBegin(buf, start), end, map[]);
    }
  }

  // ---- The lines a chunk reads ----

  /** Offsets of the lines the loop reads from position `p` while the position
      is below `end`, for a range that lies inside the file. */
  function LinesFrom(buf: seq<byte>, p: nat, end: nat): (qs: seq<nat>)
    requires p <= |buf| && end <= |buf|
    ensures forall i | 0 <= i < |qs| :: p <= qs[i] < end
    ensures forall i, j | 0 <= i < j < |qs| :: qs[i] < qs[j]
    decreases |buf| - p
  {
    if p >= end then [] else [p] + LinesFrom(buf, NextLineEnd(buf, p), end)
  }

  /** The line that starts at offset `q`, with its newline if it has one. */
  function LineAt(buf: seq<byte>, q: nat): seq<byte>
    requires q <= |buf|
  {
    buf[q..NextLineEnd(buf, q)]
  }

  /** Every offset in `qs` is a position of the file. */
  predicate WithinFile(buf: seq<byte>, qs: seq<nat>)
  {
    forall i | 0 <= i < |qs| :: qs[i] <= |buf|
  }

  /** Parsing the lines at the offsets `qs` in order; the first failure wins. */
  function ParseLines(buf: seq<byte>, qs: seq<nat>): Result<seq<Record>>
    requires WithinFile(buf, qs)
  {
    if qs == [] then Success([])
    else
      match ParseRecord(LineAt(buf, qs[0]))
      case Failure(e) => Failure(e)
      case Success(rec) =>
        match ParseLines(buf, qs[1..])
        case Failure(e) => Failure(e)
        case Success(rs) => Success([rec] + rs)
  }

  /** Folding parsed records into `acc`, passing a failure through. */
  function AbsorbParsed(parsed: Result<seq<Record>>, acc: Partial): Result<Partial>
  {
    match parsed
    case Failure(e) => Failure(e)
    case Success(rs) => Success(AbsorbAll(acc, rs))
  }

  /** The lines the worker for `[start, end)` reads. */
  function ChunkLines(buf: seq<byte>, start: nat, end: nat): seq<nat>
    requires start <= |buf| && end <= |buf|
  {
    LinesFrom(buf, ChunkBegin(buf, start), end)
  }

  /** Parsing succeeds exactly when every line parses, and then yields one
      record per line, in order. */
  lemma {:induction false} ParseLinesAll(buf: seq<byte>, qs: seq<nat>)
    requires WithinFile(buf, qs)
    ensures ParseLines(buf, qs).Success? <==> forall i | 0 <= i < |qs| :: ParseRecord(LineAt(buf, qs[i])).Success?
    ensures ParseLines(buf, qs).Success? ==>
      var rs := ParseLines(buf, qs).value;
      |rs| == |qs| && forall i | 0 <= i < |qs| :: rs[i] == ParseRecord(LineAt(buf, qs[i])).value
  {
    if qs != [] {
      ParseLinesAll(buf, qs[1..]);
      if ParseLines(buf, qs).Success? {
        forall i | 1 <= i < |qs| ensures ParseRecord(LineAt(buf, qs[i])).Success? {
          assert qs[i] == qs[1..][i - 1];
        }
      } else if ParseRecord(LineAt(buf, qs[0])).Success? {
        var i :| 0 <= i < |qs[1..]| && !ParseRecord(LineAt(buf, qs[1..][i])).Success?;
        assert qs[1..][i] == qs[i + 1];
      }
    }
  }

  /** Parsing two runs of lines one after the other: the first failure wins;
      otherwise the records are those of the first run followed by those of
      the second. */
  lemma {:induction false} ParseLinesAppend(buf: seq<byte>, qs1: seq<nat>, qs2: seq<nat>)
    requires WithinFile(buf, qs1) && WithinFile(buf, qs2)
    ensures WithinFile(buf, qs1 + qs2)
    ensures ParseLines(buf, qs1).Failure? ==> ParseLines(buf, qs1 + qs2) == ParseLines(buf, qs1)
    ensures ParseLines(buf, qs1).Success? && ParseLines(buf, qs2).Failure? ==>
      ParseLines(buf, qs1 + qs2) == ParseLines(buf, qs2)
    ensures ParseLines(buf, qs1).Success? && ParseLines(buf, qs2).Success? ==>
      ParseLines(buf, qs1 + qs2) == Success(ParseLines(buf, qs1).value + ParseLines(buf, qs2).value)
  {
    if qs1 == [] {
      assert qs1 + qs2 == qs2;
      if ParseLines(buf, qs2).Success? {
        assert [] + ParseLines(buf, qs2).value == ParseLines(buf, qs2).value;
      }
    } else {
      var tail := qs1[1..];
      assert (qs1 + qs2)[0] == qs1[0];
      assert (qs1 + qs2)[1..] == tail + qs2;
      ParseLinesAppend(buf, tail, qs2);
      var first := ParseRecord(LineAt(buf, qs1[0]));
      var whole := ParseLines(buf, qs1 + qs2);
      if first.Failure? {
        assert whole == Failure(first.error);
      } else if ParseLines(buf, tail).Failure? {
        assert whole == ParseLines(buf, tail + qs2);
      } else if ParseLines(buf, qs2).Failure? {
        assert whole == ParseLines(buf, tail + qs2);
      } else {
        var rs1, rs2 := ParseLines(buf, tail).value, ParseLines(buf, qs2).value;
        assert whole == Success([first.value] + (rs1 + rs2));
        assert [first.value] + (rs1 + rs2) == ([first.value] + rs1) + rs2;
      }
    }
  }

  /** Inside the file, the chunk loop is: read the lines of `LinesFrom`, parse
      them all, fold the records in order. */
  lemma {:induction false} FoldLinesReadsLines(buf: seq<byte>, p: nat, end: nat, acc: Partial)
    requires p <= |buf| && end <= |buf|
    ensures FoldLines(buf, p, end, acc) == AbsorbParsed(ParseLines(buf, LinesFrom(buf, p, end)), acc)
    decreases |buf| - p
  {
    if p < end {
      var next := NextLineEnd(buf, p);
      var qs := LinesFrom(buf, p, end);
      assert qs[0] == p && qs[1..] == LinesFrom(buf, next, end);
      match ParseRecord(buf[p..next])
      case Failure(e) =>
      case Success(rec) =>
        FoldLinesReadsLines(buf, next, end, Absorb(acc, rec));
    }
  }

  /** Starting from a line boundary, the loop reads exactly the records that
      begin at or after `p` and below `end`. */
  lemma {:induction false} LinesAreRecordStarts(buf: seq<byte>, p: nat, end: nat, q: nat)
    requires AtLineBoundary(buf, p) && end <= |buf|
    ensures q in LinesFrom(buf, p, end) <==> p <= q < end && IsRecordStart(buf, q)
    decreases |buf| - p
  {
    if p < end {
      var next := NextLineEnd(buf, p);
      LinesAreRecordStarts(buf, next, end, q);
      if p < q < next {
        assert buf[q - 1] != NL;
      }
    }
  }

  /** The first position the walk from `p` reaches at or beyond `m`. */
  function Cross(buf: seq<byte>, p: nat, m: nat): (r: nat)
    requires p <= |buf| && m <= |buf|
    ensures p <= r <= |buf| && m <= r
    ensures r == p || AtLineBoundary(buf, r)
    decreases |buf| - p
  {
    if p >= m then p else Cross(buf, NextLineEnd(buf, p), m)
  }

  /** Reading up to `e` is reading up to `m`, then reading on from where that
      stopped. */
  lemma {:induction false} LinesSplit(buf: seq<byte>, p: nat, m: nat, e: nat)
    requires p <= |buf| && m <= e <= |buf|
    ensures LinesFrom(buf, p, e) == LinesFrom(buf, p, m) + LinesFrom(buf, Cross(buf, p, m), e)
    decreases |buf| - p
  {
    if p < m {
      LinesSplit(buf, NextLineEnd(buf, p), m, e);
    }
  }

  lemma {:induction false} CrossFromBoundary(buf: seq<byte>, p: nat, m: nat)
    requires AtLineBoundary(buf, p) && p < m <= |buf| && !AfterNewline(buf, m)
    ensures Cross(buf, p, m) == NextLineEnd(buf, m)
    decreases |buf| - p
  {
    var next := NextLineEnd(buf, p);
    if next >= m {
      NextLineEndFromInside(buf, p, m);
    } else {
      CrossFromBoundary(buf, next, m);
    }
  }

  /** When the byte before `m` is not a newline, the chunk that ends at `m`
      stops exactly where the chunk that starts at `m` begins: the line that
      straddles `m` is read by the earlier chunk only. */
  lemma CrossIsNextBegin(buf: seq<byte>, s: nat, m: nat)
    requires s <= m <= |buf| && !AfterNewline(buf, m)
    ensures Cross(buf, ChunkBegin(buf, s), m) == ChunkBegin(buf, m)
  {
    var b := ChunkBegin(buf, s);
    if m > 0 {
      if b >= m {
        NextLineEndFromInside(buf, s, m);
      } else {
        CrossFromBoundary(buf, b, m);
      }
    }
  }

  /** Two adjacent chunks `[s, m)` and `[m, e)` read, between them, exactly
      the lines one chunk `[s, e)` reads, each once and in order, provided the
      byte before `m` is not a newline. */
  lemma AdjacentChunks(buf: seq<byte>, s: nat, m: nat, e: nat)
    requires s <= m <= e <= |buf| && !AfterNewline(buf, m)
    ensures ChunkLines(buf, s, m) + ChunkLines(buf, m, e) == ChunkLines(buf, s, e)
  {
    LinesSplit(buf, ChunkBegin(buf, s), m, e);
    CrossIsNextBegin(buf, s, m);
  }

  /** When the byte before `m` is a newline, the record that begins at `m` is
      read by neither the chunk that ends at `m` nor the chunk that starts there. */
  lemma BoundaryRecordSkipped(buf: seq<byte>, s: nat, m: nat, e: nat)
    requires s <= m <= e <= |buf| && AfterNewline(buf, m) && m < |buf|
    ensures IsRecordStart(buf, m)
    ensures m !in ChunkLines(buf, s, m) && m !in ChunkLines(buf, m, e)
  {
  }

  /** Inside the file, a worker parses its lines and folds them; it fails
      exactly when one of its lines fails to parse. */
  lemma ChunkResultReadsLines(buf: seq<byte>, start: nat, end: nat)
    requires 0 < |buf| && start <= |buf| && end <= |buf|
    ensures ChunkResult(buf, start, end) == AbsorbParsed(ParseLines(buf, ChunkLines(buf, start, end)), map[])
    ensures ChunkResult(buf, start, end).Success? <==>
      forall i | 0 <= i < |ChunkLines(buf, start, end)| :: ParseRecord(LineAt(buf, ChunkLines(buf, start, end)[i])).Success?
  {
    FoldLinesReadsLines(buf, ChunkBegin(buf, start), end, map[]);
    ParseLinesAll(buf, ChunkLines(buf, start, end));
  }

  /** A successful worker result holds, for each station, the count, sum,
      least and greatest of the readings on exactly the lines it read. */
  lemma ChunkStationSummary(buf: seq<byte>, start: nat, end: nat, st: Station)
    requires 0 < |buf| && start <= |buf| && end <= |buf|
    requires ParseLines(buf, ChunkLines(buf, start, end)).Success?
    ensures
      var rs := ParseLines(buf, ChunkLines(buf, start, end)).value;
      && ChunkResult(buf, start, end).Success?
      && AllValid(ChunkResult(buf, start, end).value)
      && Lookup(ChunkResult(buf, start, end).value, st) == Summary(ReadingsOf(rs, st))
  {
    ChunkResultReadsLines(buf, start, end);
    var rs := ParseLines(buf, ChunkLines(buf, start, end)).value;
    PartialOfRecords(rs, st);
    AbsorbAllValid(map[], rs);
  }
}
