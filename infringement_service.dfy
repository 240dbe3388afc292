/** Infringement detection (service/infringement_service.py): a case-insensitive search
    for a stored watermark fragment in a query sequence, and the filter that keeps the
    stored records whose fragment occurs in the query. */
module InfringementService {
  import opened Common
  import opened PyStr

  /** The dictionary find_sequence_match returns. */
  datatype MatchResult = MatchResult(matched: bool, position: Option<string>, matchedSequence: Option<string>)

  /** find_sequence_match: the lower-cased target searched for the lower-cased fragment,
      a hit reported as the 1-based inclusive range "start..end". */
  function FindSequenceMatch(target: string, fragment: string): (r: MatchResult)
    ensures r.matched ==> r.position.Some? && r.matchedSequence.Some?
  {
    var t := Lower(target);
    var w := Lower(fragment);
    var start := Find(t, w);
    if start != -1 then
      MatchResult(true, Some(RangeText(start + 1, start + |w|)), Some(w))
    else
      MatchResult(false, None, None)
  }

  /** A match is reported exactly when the fragment occurs in the target, ignoring case;
      the position is that of the leftmost occurrence and the matched text is the
      lower-cased fragment; without a match both are absent. */
  lemma FindSequenceMatchSpec(target: string, fragment: string)
    ensures FindSequenceMatch(target, fragment).matched <==> Contains(Lower(target), Lower(fragment))
    ensures FindSequenceMatch(target, fragment).matched ==> exists s | 0 <= s <= |target| ::
      && OccursAt(Lower(target), Lower(fragment), s)
      && (forall k | 0 <= k < s :: !OccursAt(Lower(target), Lower(fragment), k))
      && FindSequenceMatch(target, fragment).position == Some(RangeText(s + 1, s + |fragment|))
    ensures FindSequenceMatch(target, fragment).matched ==>
      FindSequenceMatch(target, fragment).matchedSequence == Some(Lower(fragment))
    ensures !FindSequenceMatch(target, fragment).matched ==>
      FindSequenceMatch(target, fragment).position == None && FindSequenceMatch(target, fragment).matchedSequence == None
  {
  }

  /** The reported range names an occurrence: reading "a..b" back gives a 1-based start
      a where the fragment occurs, and an end b that is a plus its length minus one. */
  lemma MatchPositionNamesOccurrence(target: string, fragment: string, a: int, b: int)
    requires FindSequenceMatch(target, fragment).position == Some(RangeText(a, b))
    ensures OccursAt(Lower(target), Lower(fragment), a - 1)
    ensures b == a - 1 + |fragment|
  {
    var r := FindSequenceMatch(target, fragment);
    FindSequenceMatchSpec(target, fragment);
    var s :| 0 <= s <= |target| && OccursAt(Lower(target), Lower(fragment), s)
      && r.position == Some(RangeText(s + 1, s + |fragment|));
    RangeTextInjective(a, b, s + 1, s + |fragment|);
  }

  /** Matching ignores case on both sides. */
  lemma FindSequenceMatchIgnoresCase(target: string, fragment: string)
    ensures FindSequenceMatch(target, fragment) == FindSequenceMatch(Lower(target), Lower(fragment))
  {
    LowerIdempotent(target);
    LowerIdempotent(fragment);
  }

  lemma LowerIdempotent(s: string)
    ensures Lower(Lower(s)) == Lower(s)
  {
  }

  /** A stored watermark record, with the fields the match report copies; timestamps
      and the GenBank texts are not part of this model. */
  datatype WatermarkRecord = WatermarkRecord(
    id: int,
    objectId: string,
    algorithm: string,
    originalText: string,
    watermarkSequence: string,
    position: string)

  /** One entry of "matches": the record, with where and what matched. */
  datatype Match = Match(record: WatermarkRecord, matchedSequence: string, matchedPosition: string)

  datatype Report = Report(matches: seq<Match>, totalMatches: int)

  /** The entries for the records whose fragment occurs in the query, in record order. */
  function MatchesOf(sequence: string, records: seq<WatermarkRecord>): (ms: seq<Match>)
    ensures |ms| <= |records|
    decreases |records|
  {
    if records == [] then []
    else
      var m := FindSequenceMatch(sequence, records[0].watermarkSequence);
      var rest := MatchesOf(sequence, records[1..]);
      if m.matched then [Match(records[0], m.matchedSequence.value, m.position.value)] + rest else rest
  }

  /** The filter distributes over concatenation, so it keeps the input order. */
  lemma {:induction false} MatchesOfAppend(sequence: string, a: seq<WatermarkRecord>, b: seq<WatermarkRecord>)
    ensures MatchesOf(sequence, a + b) == MatchesOf(sequence, a) + MatchesOf(sequence, b)
    decreases |a|
  {
    if a == [] {
      assert a + b == b;
    } else {
      assert (a + b)[0] == a[0] && (a + b)[1..] == a[1..] + b;
      MatchesOfAppend(sequence, a[1..], b);
    }
  }

  /** Every reported entry belongs to a record of the input whose fragment matches, and
      carries that record's match result. */
  lemma {:induction false} MatchesOfSound(sequence: string, records: seq<WatermarkRecord>)
    ensures forall m | m in MatchesOf(sequence, records) ::
      && m.record in records
      && FindSequenceMatch(sequence, m.record.watermarkSequence).matched
      && Some(m.matchedSequence) == FindSequenceMatch(sequence, m.record.watermarkSequence).matchedSequence
      && Some(m.matchedPosition) == FindSequenceMatch(sequence, m.record.watermarkSequence).position
    decreases |records|
  {
    if records != [] {
      MatchesOfSound(sequence, records[1..]);
    }
  }

  /** Every input record whose fragment matches is reported. */
  lemma {:induction false} MatchesOfComplete(sequence: string, records: seq<WatermarkRecord>, rec: WatermarkRecord)
    requires rec in records && FindSequenceMatch(sequence, rec.watermarkSequence).matched
    ensures exists m | m in MatchesOf(sequence, records) :: m.record == rec
    decreases |records|
  {
    if rec != records[0] {
      assert rec in records[1..];
      MatchesOfComplete(sequence, records[1..], rec);
      var m :| m in MatchesOf(sequence, records[1..]) && m.record == rec;
      assert m in MatchesOf(sequence, records);
    } else {
      var m0 := FindSequenceMatch(sequence, rec.watermarkSequence);
      assert MatchesOf(sequence, records)[0] == Match(rec, m0.matchedSequence.value, m0.position.value);
    }
  }

  /** The loop of detect_sequence_infringement over the records the database query
      would return. */
  method DetectSequenceInfringement(sequence: string, records: seq<WatermarkRecord>) returns (r: Result<Report>)
    ensures sequence == [] ==> r == Err(EmptySequence)
    ensures sequence != [] ==> r.Ok? && r.value.matches == MatchesOf(sequence, records)
    ensures r.Ok? ==> r.value.totalMatches == |r.value.matches|
  {
    if sequence == [] {
      return Err(EmptySequence);
    }
    var matches: seq<Match> := [];
    for i := 0 to |records|
      invariant matches + MatchesOf(sequence, records[i..]) == MatchesOf(sequence, records)
    {
      assert records[i..][0] == records[i] && records[i..][1..] == records[i + 1..];
      var matchResult := FindSequenceMatch(sequence, records[i].watermarkSequence);
      if matchResult.matched {
        matches := matches + [Match(records[i], matchResult.matchedSequence.value, matchResult.position.value)];
      }
    }
    assert records[|records|..] == [];
    assert matches + [] == matches;
    r := Ok(Report(matches, |matches|));
  }
}
