/** Raw bytes of the measurement file and the line structure the chunk reader
    relies on: where `readline()` stops, and how `bytes.split` cuts a line. */
module Bytes {

  newtype byte = x: int | 0 <= x < 256

  const NL: byte := 10    // '\n'
  const SEMI: byte := 59  // ';'

  /** The position just past the first newline at or after `p`, or the end of
      the buffer when no newline follows: where a `readline()` issued at
      position `p` leaves the file position. */
  function NextLineEnd(buf: seq<byte>, p: nat): (r: nat)
    requires p <= |buf|
    ensures p <= r <= |buf|
    ensures p < |buf| ==> p < r
    ensures r == |buf| || buf[r - 1] == NL
    ensures forall k | p <= k < r - 1 :: buf[k] != NL
    decreases |buf| - p
  {
    if p == |buf| then p
    else if buf[p] == NL then p + 1
    else NextLineEnd(buf, p + 1)
  }

  /** `p` is a place where a line may begin: the start of the buffer, its end,
      or just after a newline. */
  predicate AtLineBoundary(buf: seq<byte>, p: nat)
  {
    p <= |buf| && (p == 0 || p == |buf| || buf[p - 1] == NL)
  }

  /** `q` is the offset of the first byte of a record (a line of the file). */
  predicate IsRecordStart(buf: seq<byte>, q: nat)
  {
    q < |buf| && (q == 0 || buf[q - 1] == NL)
  }

  /** The byte just before offset `p` exists and is a newline. */
  predicate AfterNewline(buf: seq<byte>, p: nat)
  {
    0 < p <= |buf| && buf[p - 1] == NL
  }

  /** Reading a line from `m` instead of from an earlier `p` on the same line
      ends at the same place, unless `m` itself sits right after a newline. */
  lemma {:induction false} NextLineEndFromInside(buf: seq<byte>, p: nat, m: nat)
    requires m <= |buf|
    requires p <= m <= NextLineEnd(buf, p)
    requires !AfterNewline(buf, m) || m == p
    ensures NextLineEnd(buf, m) == NextLineEnd(buf, p)
    decreases m - p
  {
    if m > p {
      assert buf[p] != NL;
      NextLineEndFromInside(buf, p + 1, m);
    }
  }

  /** Number of occurrences of `d` in `s`. */
  function Occurrences(s: seq<byte>, d: byte): nat
  {
    if s == [] then 0 else (if s[0] == d then 1 else 0) + Occurrences(s[1..], d)
  }

  /** `bytes.split(d)`: the pieces of `s` between occurrences of `d`; there is
      always at least one piece, and one more piece than separators. */
  function Split(s: seq<byte>, d: byte): (r: seq<seq<byte>>)
    ensures |r| == Occurrences(s, d) + 1
    ensures forall i | 0 <= i < |r| :: d !in r[i]
  {
    if s == [] then [[]]
    else
      var rest := Split(s[1..], d);
      if s[0] == d then [[]] + rest
      else [[s[0]] + rest[0]] + rest[1..]
  }

  /** `d.join(parts)`: the inverse of `Split`. */
  function Join(parts: seq<seq<byte>>, d: byte): seq<byte>
    requires |parts| >= 1
    decreases |parts|
  {
    if |parts| == 1 then parts[0] else parts[0] + [d] + Join(parts[1..], d)
  }

  lemma {:induction false} JoinSplit(s: seq<byte>, d: byte)
    ensures Join(Split(s, d), d) == s
  {
    if s != [] {
      JoinSplit(s[1..], d);
      var rest := Split(s[1..], d);
      if s[0] == d {
        assert Split(s, d)[1..] == rest;
      } else {
        var r := Split(s, d);
        if |rest| == 1 {
          assert r == [[s[0]] + rest[0]];
        } else {
          assert r[1..] == rest[1..];
          assert Join(rest, d) == rest[0] + [d] + Join(rest[1..], d);
        }
      }
    }
  }

  /** A piece without the separator splits to itself. */
  lemma {:induction false} SplitWithout(s: seq<byte>, d: byte)
    requires d !in s
    ensures Split(s, d) == [s]
  {
    if s != [] {
      SplitWithout(s[1..], d);
      assert [s[0]] + s[1..] == s;
    }
  }

  /** Splitting at the first separator peels off the piece in front of it. */
  lemma {:induction false} SplitAtFirst(a: seq<byte>, b: seq<byte>, d: byte)
    requires d !in a
    ensures Split(a + [d] + b, d) == [a] + Split(b, d)
  {
    if a == [] {
      assert a + [d] + b == [d] + b;
      assert ([d] + b)[1..] == b;
    } else {
      assert (a + [d] + b)[1..] == a[1..] + [d] + b;
      SplitAtFirst(a[1..], b, d);
      assert [a[0]] + a[1..] == a;
    }
  }

  lemma {:induction false} SplitJoin(parts: seq<seq<byte>>, d: byte)
    requires |parts| >= 1
    requires forall i | 0 <= i < |parts| :: d !in parts[i]
    ensures Split(Join(parts, d), d) == parts
    decreases |parts|
  {
    if |parts| == 1 {
      SplitWithout(parts[0], d);
    } else {
      SplitJoin(parts[1..], d);
      SplitAtFirst(parts[0], Join(parts[1..], d), d);
      assert [parts[0]] + parts[1..] == parts;
    }
  }
}
