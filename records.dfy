/** One line of the file: `<station>;<temperature>`. */
module Records {
  import opened Bytes
  import opened Failures
  import opened Temperature

  /** A station name is an opaque byte string. */
  type Station = seq<byte>

  datatype Record = Record(station: Station, tenths: int)

  /** `station, temperature = line.split(b';')` followed by `float(temperature)`:
      the unpacking fails unless the line holds exactly one ';', and the
      conversion fails unless the second field is a number. */
  function ParseRecord(line: seq<byte>): (r: Result<Record>)
    ensures r == Failure(WrongFieldCount) <==> Occurrences(line, SEMI) != 1
    ensures r.Success? ==>
      var n := |r.value.station|;
      && n < |line|
      && line[..n] == r.value.station && line[n] == SEMI
      && SEMI !in r.value.station && SEMI !in line[n + 1..]
      && ParseTemperature(line[n + 1..]) == Some(r.value.tenths)
    ensures Occurrences(line, SEMI) == 1 ==> (r.Success? <==> ParseTemperature(Split(line, SEMI)[1]).Some?)
    ensures r.Failure? ==> r.error == WrongFieldCount || r.error == NotANumber
  {
    var fields := Split(line, SEMI);
    if |fields| != 2 then Failure(WrongFieldCount)
    else
      JoinSplit(line, SEMI);
      assert line == fields[0] + [SEMI] + fields[1];
      match ParseTemperature(fields[1])
      case None => Failure(NotANumber)
      case Some(t) => Success(Record(fields[0], t))
  }

  /** The line the file holds for a record parses back to that record. */
  lemma RecordRoundTrip(station: Station, t: int)
    requires SEMI !in station
    ensures ParseRecord(station + [SEMI] + FormatTemperature(t) + [NL]) == Success(Record(station, t))
  {
    var field := FormatTemperature(t) + [NL];
    assert station + [SEMI] + FormatTemperature(t) + [NL] == station + [SEMI] + field;
    assert SEMI !in field;
    SplitAtFirst(station, field, SEMI);
    SplitWithout(field, SEMI);
    FormatParseRoundTrip(t);
  }
}
