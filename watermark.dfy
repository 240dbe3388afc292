/** The insertion of an encoded watermark fragment into a GenBank record
    (dna_watermark/watermark.py): the splice, the watermark info, the comment and the
    feature that describe the fragment, and the re-indexing of the record's features. */
module Watermark {
  import opened Common
  import opened PyStr
  import opened CodonTable
  import opened Encoding

  /** A bound of a feature location. BioPython prints an exact position as its number;
      a fuzzy one (before, after, within, between, one-of) prints with a marker such as
      '<' or '>', so int(str(position)) rejects it. */
  datatype Position = Exact(n: int) | Fuzzy(n: int)

  /** A feature location by its outer bounds (0-based, end-exclusive) and its strand
      (1, -1, 0 or None). A join is represented by its span, which is all that its
      .start and .end expose. */
  datatype Location = Location(start: Position, end: Position, strand: Option<int>)

  /** A sequence feature: its type, its location if it has one, and its qualifiers,
      each a list of strings. */
  datatype Feature = Feature(kind: string, location: Option<Location>, qualifiers: map<string, seq<string>>)

  /** The parts of a parsed GenBank record that the update reads or writes: the
      sequence, the "sequence_length", "definition" and "comment" annotations, and
      the features. */
  datatype Record = Record(
    sequence: string,
    sequenceLength: int,
    definition: Option<string>,
    comment: Option<string>,
    features: seq<Feature>)

  /** The "watermarkInfo" dictionary: the interval [start, end) of the fragment, the
      fragment and the text it encodes. */
  datatype WatermarkInfo = WatermarkInfo(start: int, end: int, sequence: string, originalText: string)

  /** The "data" part of the success response of insert_watermark; the GenBank file is
      given by the record it is written from. */
  datatype Insertion = Insertion(watermarkedSequence: string, watermarkInfo: WatermarkInfo, genbankFile: Record)

  // ---------------------------------------------------------------------------
  // The splice and the watermark info
  // ---------------------------------------------------------------------------

  /** create_watermarked_sequence: original[:p] + fragment + original[p:], with Python's
      slice rules for a negative or too large p. */
  function CreateWatermarkedSequence(original: string, fragment: string, p: int): (r: string)
    ensures |r| == |original| + |fragment|
    ensures var c := SliceIndex(p, |original|);
      r[..c] == original[..c] && r[c..c + |fragment|] == fragment && r[c + |fragment|..] == original[c..]
  {
    var c := SliceIndex(p, |original|);
    var r := original[..c] + fragment + original[c..];
    assert r[..c] == original[..c];
    assert r[c..c + |fragment|] == fragment;
    assert r[c + |fragment|..] == original[c..];
    r
  }

  /** create_watermark_info: the interval [p, p + |fragment|), the fragment and the text. */
  function CreateWatermarkInfo(text: string, fragment: string, p: int): (r: WatermarkInfo)
    ensures r.start == p && r.end - r.start == |fragment|
    ensures r.sequence == fragment && r.originalText == text
  {
    WatermarkInfo(p, p + |fragment|, fragment, text)
  }

  /** The watermark info names exactly the bases of the fragment in the spliced sequence. */
  lemma WatermarkInfoLocatesFragment(original: string, text: string, fragment: string, p: int)
    requires 0 <= p <= |original|
    ensures var info := CreateWatermarkInfo(text, fragment, p);
      var s := CreateWatermarkedSequence(original, fragment, p);
      0 <= info.start <= info.end <= |s| && s[info.start..info.end] == info.sequence
  {
  }

  // ---------------------------------------------------------------------------
  // Re-indexing the features
  // ---------------------------------------------------------------------------

  /** The new bounds of a feature [start, end) after inserting L bases at p: a feature
      starting at or after p moves by L; one starting before p grows by L when its end
      is at or after p, and stays put otherwise. */
  function ReindexBounds(start: int, end: int, p: int, L: nat): (r: (int, int))
    ensures start >= p ==> r == (start + L, end + L)
    ensures start < p <= end ==> r == (start, end + L)
    ensures start < p && end < p ==> r == (start, end)
    ensures start <= end ==> r.0 <= r.1
    ensures r.1 - r.0 == end - start || r.1 - r.0 == end - start + L
  {
    if start >= p then (start + L, end + L)
    else (start, if end >= p then end + L else end)
  }

  /** The re-indexed bounds cover the same bases of the spliced sequence as the old
      bounds did of the original, plus the fragment when it lands inside the feature. */
  lemma ReindexedBoundsCoverSameBases(original: string, fragment: string, p: int, start: int, end: int)
    requires 0 <= start <= end <= |original| && 0 <= p <= |original|
    ensures var b := ReindexBounds(start, end, p, |fragment|);
      var s := CreateWatermarkedSequence(original, fragment, p);
      0 <= b.0 <= b.1 <= |s|
      && s[b.0..b.1] == if start < p <= end then original[start..p] + fragment + original[p..end] else original[start..end]
  {
    var s := CreateWatermarkedSequence(original, fragment, p);
    assert s == original[..p] + fragment + original[p..];
    if start >= p {
      SliceAfterSplice(original, fragment, p, start, end);
    } else if end >= p {
      SliceAcrossSplice(original, fragment, p, start, end);
    } else {
      SliceBeforeSplice(original, fragment, p, start, end);
    }
  }

  lemma SliceAfterSplice(original: string, fragment: string, p: int, start: int, end: int)
    requires 0 <= p <= start <= end <= |original|
    ensures (original[..p] + fragment + original[p..])[start + |fragment|..end + |fragment|] == original[start..end]
  {
    var x := original[..p] + fragment;
    assert (x + original[p..])[start + |fragment|..end + |fragment|] == original[p..][start - p..end - p];
  }

  lemma SliceAcrossSplice(original: string, fragment: string, p: int, start: int, end: int)
    requires 0 <= start < p <= end <= |original|
    ensures (original[..p] + fragment + original[p..])[start..end + |fragment|]
      == original[start..p] + fragment + original[p..end]
  {
  }

  lemma SliceBeforeSplice(original: string, fragment: string, p: int, start: int, end: int)
    requires 0 <= start <= end < p <= |original|
    ensures (original[..p] + fragment + original[p..])[start..end] == original[start..end]
  {
    var y := fragment + original[p..];
    assert original[..p] + fragment + original[p..] == original[..p] + y;
  }

  /** A feature the loop keeps: it has a location whose two bounds read as integers. */
  predicate Readable(f: Feature)
  {
    f.location.Some? && f.location.value.start.Exact? && f.location.value.end.Exact?
  }

  /** A "translation" qualifier whose list of values is empty: indexing it with [0] raises. */
  predicate HasEmptyTranslation(f: Feature)
  {
    "translation" in f.qualifiers && f.qualifiers["translation"] == []
  }

  /** One pass of the feature loop: a feature without a readable location is skipped;
      otherwise its location becomes the re-indexed exact bounds on the same strand, and
      its translation loses all whitespace. */
  function ReindexFeature(f: Feature, p: int, L: nat): (r: Result<Option<Feature>>)
    ensures r.Ok? && r.value.None? <==> !Readable(f)
    ensures r.Err? <==> Readable(f) && HasEmptyTranslation(f)
    ensures r.Err? ==> r.error == EmptyTranslation
    ensures r.Ok? && r.value.Some? ==>
      var g := r.value.value;
      var b := ReindexBounds(f.location.value.start.n, f.location.value.end.n, p, L);
      && g.kind == f.kind
      && g.location == Some(Location(Exact(b.0), Exact(b.1), f.location.value.strand))
      && g.qualifiers.Keys == f.qualifiers.Keys
      && (forall k | k in f.qualifiers && k != "translation" :: g.qualifiers[k] == f.qualifiers[k])
      && ("translation" in f.qualifiers ==> g.qualifiers["translation"] == [RemoveWhitespace(f.qualifiers["translation"][0])])
  {
    if !Readable(f) then Ok(None)
    else
      var loc := f.location.value;
      var b := ReindexBounds(loc.start.n, loc.end.n, p, L);
      var moved := f.(location := Some(Location(Exact(b.0), Exact(b.1), loc.strand)));
      if "translation" in f.qualifiers then
        var values := f.qualifiers["translation"];
        if values == [] then Err(EmptyTranslation)
        else Ok(Some(moved.(qualifiers := f.qualifiers["translation" := [RemoveWhitespace(values[0])]])))
      else Ok(Some(moved))
  }

  /** Prefixing already collected features to the rest of a loop's outcome. */
  function Prepend(acc: seq<Feature>, r: Result<seq<Feature>>): (q: Result<seq<Feature>>)
    ensures q.Ok? <==> r.Ok?
    ensures q.Ok? ==> q.value == acc + r.value
    ensures q.Err? ==> q.error == r.error
  {
    if r.Ok? then Ok(acc + r.value) else r
  }

  /** The features the loop of update_genbank_content appends, in order, or the error
      of the first feature whose translation cannot be read. */
  function ReindexFeatures(fs: seq<Feature>, p: int, L: nat): (r: Result<seq<Feature>>)
    decreases |fs|
  {
    if fs == [] then Ok([])
    else
      match ReindexFeature(fs[0], p, L)
      case Err(e) => Err(e)
      case Ok(kept) => Prepend(if kept.Some? then [kept.value] else [], ReindexFeatures(fs[1..], p, L))
  }

  lemma PrependNothing(r: Result<seq<Feature>>)
    ensures Prepend([], r) == r
  {
    if r.Ok? {
      assert [] + r.value == r.value;
    }
  }

  lemma PrependAssoc(a: seq<Feature>, b: seq<Feature>, r: Result<seq<Feature>>)
    ensures Prepend(a, Prepend(b, r)) == Prepend(a + b, r)
  {
    if r.Ok? {
      assert a + (b + r.value) == (a + b) + r.value;
    }
  }

  /** The loop fails exactly when some readable feature has an empty translation, and
      then with the error of that feature. */
  lemma {:induction false} ReindexFeaturesFails(fs: seq<Feature>, p: int, L: nat)
    ensures ReindexFeatures(fs, p, L).Err? <==> exists i | 0 <= i < |fs| :: Readable(fs[i]) && HasEmptyTranslation(fs[i])
    ensures ReindexFeatures(fs, p, L).Err? ==> ReindexFeatures(fs, p, L).error == EmptyTranslation
    decreases |fs|
  {
    if fs != [] {
      ReindexFeaturesFails(fs[1..], p, L);
      if ReindexFeature(fs[0], p, L).Ok? {
        forall i | 1 <= i < |fs| && Readable(fs[i]) && HasEmptyTranslation(fs[i])
          ensures exists j | 0 <= j < |fs[1..]| :: Readable(fs[1..][j]) && HasEmptyTranslation(fs[1..][j])
        {
          assert fs[1..][i - 1] == fs[i];
        }
      }
    }
  }

  /** The loop keeps the readable features, each re-indexed, in their original order,
      and drops the others: its outcome on fs + gs is its outcome on fs followed by its
      outcome on gs. */
  lemma {:induction false} ReindexFeaturesAppend(fs: seq<Feature>, gs: seq<Feature>, p: int, L: nat)
    ensures ReindexFeatures(fs + gs, p, L) ==
      match ReindexFeatures(fs, p, L)
      case Err(e) => Err(e)
      case Ok(a) => Prepend(a, ReindexFeatures(gs, p, L))
    decreases |fs|
  {
    if fs == [] {
      assert fs + gs == gs;
      assert Prepend([], ReindexFeatures(gs, p, L)) == ReindexFeatures(gs, p, L) by {
        if ReindexFeatures(gs, p, L).Ok? {
          assert [] + ReindexFeatures(gs, p, L).value == ReindexFeatures(gs, p, L).value;
        }
      }
    } else {
      assert (fs + gs)[0] == fs[0] && (fs + gs)[1..] == fs[1..] + gs;
      ReindexFeaturesAppend(fs[1..], gs, p, L);
      var k := ReindexFeature(fs[0], p, L);
      if k.Ok? && ReindexFeatures(fs[1..], p, L).Ok? {
        var head := if k.value.Some? then [k.value.value] else [];
        PrependAssoc(head, ReindexFeatures(fs[1..], p, L).value, ReindexFeatures(gs, p, L));
      }
    }
  }

  /** On one feature the loop appends exactly what ReindexFeature gives. */
  lemma ReindexFeaturesSingle(f: Feature, p: int, L: nat)
    ensures ReindexFeatures([f], p, L) ==
      match ReindexFeature(f, p, L)
      case Err(e) => Err(e)
      case Ok(kept) => Ok(if kept.Some? then [kept.value] else [])
  {
    assert [f][1..] == [];
    var k := ReindexFeature(f, p, L);
    if k.Ok? {
      var head := if k.value.Some? then [k.value.value] else [];
      assert head + [] == head;
    }
  }

  /** Every readable feature comes out re-indexed, and nothing else comes out. */
  lemma {:induction false} ReindexFeaturesKeepsReadable(fs: seq<Feature>, p: int, L: nat)
    requires ReindexFeatures(fs, p, L).Ok?
    ensures |ReindexFeatures(fs, p, L).value| <= |fs|
    ensures forall i | 0 <= i < |fs| && Readable(fs[i]) ::
      ReindexFeature(fs[i], p, L).Ok? && ReindexFeature(fs[i], p, L).value.value in ReindexFeatures(fs, p, L).value
    ensures forall g | g in ReindexFeatures(fs, p, L).value ::
      exists i | 0 <= i < |fs| && Readable(fs[i]) :: ReindexFeature(fs[i], p, L) == Ok(Some(g))
    decreases |fs|
  {
    if fs != [] {
      ReindexFeaturesKeepsReadable(fs[1..], p, L);
      var rest := ReindexFeatures(fs[1..], p, L).value;
      forall i | 1 <= i < |fs| && Readable(fs[i])
        ensures ReindexFeature(fs[i], p, L).value.value in ReindexFeatures(fs, p, L).value
      {
        assert fs[1..][i - 1] == fs[i];
      }
      forall g | g in rest
        ensures exists i | 0 <= i < |fs| && Readable(fs[i]) :: ReindexFeature(fs[i], p, L) == Ok(Some(g))
      {
        var j :| 0 <= j < |fs[1..]| && Readable(fs[1..][j]) && ReindexFeature(fs[1..][j], p, L) == Ok(Some(g));
        assert fs[j + 1] == fs[1..][j];
      }
    }
  }

  // ---------------------------------------------------------------------------
  // The watermark feature and the comment
  // ---------------------------------------------------------------------------

  /** The four "note" qualifier values of the watermark feature. */
  function WatermarkNotes(fragment: string, p: int): (notes: seq<string>)
    ensures |notes| == 4 && notes[0] == "DNA watermark sequence"
  {
    var L := |fragment|;
    [ "DNA watermark sequence",
      "Position: " + RangeText(p + 1, p + L),
      "Length: " + IntToString(L) + " bp",
      "Sequence: " + Lower(fragment) ]
  }

  /** The feature of type "watermark" put first in the new feature list: it spans
      [p, p + |fragment|) on no strand. */
  function WatermarkFeature(fragment: string, p: int): (f: Feature)
    ensures f.kind == "watermark" && Readable(f)
    ensures f.location.value.end.n - f.location.value.start.n == |fragment|
    ensures f.qualifiers.Keys == {"note", "watermark_type"}
    ensures f.qualifiers["watermark_type"] == ["plaintext"]
  {
    Feature("watermark",
      Some(Location(Exact(p), Exact(p + |fragment|), None)),
      map["note" := WatermarkNotes(fragment, p), "watermark_type" := ["plaintext"]])
  }

  /** The text appended to an existing comment. */
  function WatermarkComment(fragment: string, p: int): string
  {
    var L := |fragment|;
    "\nDNA watermark information:"
      + "\n  Position: " + RangeText(p + 1, p + L)
      + "\n  Length: " + IntToString(L) + " bp"
      + "\n  Sequence: " + Lower(fragment)
  }

  /** The comment reports the same 1-based interval, length and lower-cased fragment as
      the watermark feature's notes, one per line. */
  lemma CommentMatchesNotes(fragment: string, p: int)
    ensures var notes := WatermarkNotes(fragment, p);
      WatermarkComment(fragment, p) == "\nDNA watermark information:" + "\n  " + notes[1] + "\n  " + notes[2] + "\n  " + notes[3]
  {
    var notes := WatermarkNotes(fragment, p);
    var a, b, c := RangeText(p + 1, p + |fragment|), IntToString(|fragment|), Lower(fragment);
    assert notes[1] == "Position: " + a && notes[2] == "Length: " + b + " bp" && notes[3] == "Sequence: " + c;
    var h := "\nDNA watermark information:";
    assert WatermarkComment(fragment, p) == h + "\n  Position: " + a + "\n  Length: " + b + " bp" + "\n  Sequence: " + c;
    LabelSplits();
    Regroup(h, "\n  ", "Position: ", a, "Length: ", b, " bp", "Sequence: ", c);
  }

  /** The comment's labels are the notes' labels behind a two-space indent. */
  lemma LabelSplits()
    ensures "\n  Position: " == "\n  " + "Position: "
    ensures "\n  Length: " == "\n  " + "Length: "
    ensures "\n  Sequence: " == "\n  " + "Sequence: "
  {
  }

  /** Moving the line prefix of three labelled lines out of their labels. */
  lemma Regroup(h: string, ind: string, k1: string, a: string, k2: string, b: string, t: string, k3: string, c: string)
    ensures h + (ind + k1) + a + (ind + k2) + b + t + (ind + k3) + c
         == h + ind + (k1 + a) + ind + (k2 + b + t) + ind + (k3 + c)
  {
  }

  /** The watermark feature spans the interval of the watermark info, and its notes
      report that interval 1-based. */
  lemma WatermarkFeatureMatchesInfo(text: string, fragment: string, p: int)
    ensures var info := CreateWatermarkInfo(text, fragment, p);
      WatermarkFeature(fragment, p).location == Some(Location(Exact(info.start), Exact(info.end), None))
      && WatermarkNotes(fragment, p)[1] == "Position: " + RangeText(info.start + 1, info.end)
  {
  }

  /** The length and sequence notes name only one fragment: they give back its length
      and its lower-cased text. */
  lemma NotesDetermineFragment(fragment: string, p: int, m: int, t: string)
    requires WatermarkNotes(fragment, p)[2] == "Length: " + IntToString(m) + " bp"
    requires WatermarkNotes(fragment, p)[3] == "Sequence: " + t
    ensures m == |fragment| && t == Lower(fragment)
  {
    var a, b := "Length: ", " bp";
    var x, y := IntToString(m), IntToString(|fragment|);
    assert a + x + b == a + y + b;
    assert |x| == |y|;
    assert (a + x + b)[|a|..|a| + |x|] == x;
    assert (a + y + b)[|a|..|a| + |y|] == y;
    IntToStringInjective(m, |fragment|);
    var c := "Sequence: ";
    assert (c + t)[|c|..] == t;
    assert (c + Lower(fragment))[|c|..] == Lower(fragment);
  }

  /** The position note names only one interval: it gives back p and the length. */
  lemma PositionNoteDeterminesInterval(fragment: string, p: int, q: int, m: int)
    requires WatermarkNotes(fragment, p)[1] == "Position: " + RangeText(q + 1, q + m)
    ensures q == p && m == |fragment|
  {
    var a := "Position: ";
    assert (a + RangeText(q + 1, q + m))[|a|..] == RangeText(q + 1, q + m);
    assert (a + RangeText(p + 1, p + |fragment|))[|a|..] == RangeText(p + 1, p + |fragment|);
    RangeTextInjective(q + 1, q + m, p + 1, p + |fragment|);
  }

  /** The comment as update_genbank_content leaves it: extended when there is one,
      still absent when there is none. */
  function UpdatedComment(comment: Option<string>, fragment: string, p: int): (r: Option<string>)
    ensures r.Some? <==> comment.Some?
    ensures r.Some? ==> |r.value| >= |comment.value| && r.value[..|comment.value|] == comment.value
  {
    if comment.Some? then
      var c := comment.value + WatermarkComment(fragment, p);
      assert c[..|comment.value|] == comment.value;
      Some(c)
    else None
  }

  // ---------------------------------------------------------------------------
  // update_genbank_content
  // ---------------------------------------------------------------------------

  /** What update_genbank_content makes of a record: the fragment spliced in lower case,
      the new length, the extended comment, and the watermark feature followed by the
      re-indexed features; or the error of the feature loop. */
  function UpdatedRecord(record: Record, fragment: string, p: int): (r: Result<Record>)
    ensures r.Ok? <==> ReindexFeatures(record.features, p, |fragment|).Ok?
    ensures r.Err? ==> r.error == EmptyTranslation
    ensures r.Ok? ==> r.value.sequenceLength == |r.value.sequence| == |record.sequence| + |fragment|
  {
    ReindexFeaturesFails(record.features, p, |fragment|);
    match ReindexFeatures(record.features, p, |fragment|)
    case Err(e) => Err(e)
    case Ok(kept) =>
      var s := CreateWatermarkedSequence(record.sequence, Lower(fragment), p);
      Ok(Record(s, |s|, record.definition, UpdatedComment(record.comment, fragment, p),
        [WatermarkFeature(fragment, p)] + kept))
  }

  /** The body of the feature loop of update_genbank_content for one feature: None
      when the feature is skipped, the feature with its new location and cleaned
      translation otherwise. */
  method ReindexOne(feature: Feature, p: int, L: nat) returns (r: Result<Option<Feature>>)
    ensures r == ReindexFeature(feature, p, L)
  {
    if feature.location.None? {
      return Ok(None);
    }
    var loc := feature.location.value;
    if !loc.start.Exact? || !loc.end.Exact? {
      return Ok(None);
    }
    var startPos := loc.start.n;
    var endPos := loc.end.n;
    var start, end;
    if startPos >= p {
      start := startPos + L;
      end := endPos + L;
    } else {
      start := startPos;
      end := if endPos >= p then endPos + L else endPos;
    }
    var moved := feature.(location := Some(Location(Exact(start), Exact(end), loc.strand)));
    if "translation" in moved.qualifiers {
      var values := moved.qualifiers["translation"];
      if values == [] {
        return Err(EmptyTranslation);
      }
      moved := moved.(qualifiers := moved.qualifiers["translation" := [RemoveWhitespace(values[0])]]);
    }
    r := Ok(Some(moved));
  }

  /** One step of ReindexFeatures at index i. */
  lemma ReindexFeaturesStep(fs: seq<Feature>, i: nat, p: int, L: nat)
    requires i < |fs|
    ensures ReindexFeatures(fs[i..], p, L) ==
      match ReindexFeature(fs[i], p, L)
      case Err(e) => Err(e)
      case Ok(kept) => Prepend(if kept.Some? then [kept.value] else [], ReindexFeatures(fs[i + 1..], p, L))
  {
    assert fs[i..][0] == fs[i] && fs[i..][1..] == fs[i + 1..];
  }

  /** The feature loop of update_genbank_content: each feature of fs, in order, is
      re-indexed and appended to the list that starts as prefix, or skipped. */
  method AppendReindexed(prefix: seq<Feature>, fs: seq<Feature>, p: int, L: nat) returns (r: Result<seq<Feature>>)
    ensures r == Prepend(prefix, ReindexFeatures(fs, p, L))
  {
    var newFeatures := prefix;
    assert fs[0..] == fs;
    assert prefix + [] == prefix;
    for i := 0 to |fs|
      invariant Prepend(prefix, ReindexFeatures(fs, p, L)) == Prepend(newFeatures, ReindexFeatures(fs[i..], p, L))
    {
      ReindexFeaturesStep(fs, i, p, L);
      var kept := ReindexOne(fs[i], p, L);
      if kept.Err? {
        return Err(kept.error);
      }
      var added := if kept.value.Some? then [kept.value.value] else [];
      PrependAssoc(newFeatures, added, ReindexFeatures(fs[i + 1..], p, L));
      newFeatures := newFeatures + added;
    }
    assert fs[|fs|..] == [];
    assert newFeatures + [] == newFeatures;
    r := Ok(newFeatures);
  }

  /** update_genbank_content on a parsed record, leaving out the reading and writing of
      the GenBank text and the edits of the definition line and the references. */
  method UpdateGenbankContent(record: Record, fragment: string, p: int) returns (r: Result<Record>)
    ensures r == UpdatedRecord(record, fragment, p)
  {
    var c := SliceIndex(p, |record.sequence|);
    var newSeq := record.sequence[..c] + Lower(fragment) + record.sequence[c..];
    var newLength := |newSeq|;
    var comment := record.comment;
    if comment.Some? {
      comment := Some(comment.value + WatermarkComment(fragment, p));
    }
    var features := AppendReindexed([WatermarkFeature(fragment, p)], record.features, p, |fragment|);
    if features.Err? {
      return Err(features.error);
    }
    r := Ok(Record(newSeq, newLength, record.definition, comment, features.value));
  }

  /** The layout of an updated record: the fragment sits in lower case at the watermark
      feature's interval, the feature list starts with that feature, and every other
      feature is one of the record's readable features, re-indexed, in the original
      order; the definition is untouched. */
  lemma UpdatedRecordLayout(record: Record, fragment: string, p: int)
    requires 0 <= p <= |record.sequence|
    requires UpdatedRecord(record, fragment, p).Ok?
    ensures var u := UpdatedRecord(record, fragment, p).value;
      && |u.features| >= 1
      && u.features[0] == WatermarkFeature(fragment, p)
      && u.features[1..] == ReindexFeatures(record.features, p, |fragment|).value
      && u.sequence[p..p + |fragment|] == Lower(fragment)
      && u.sequence[..p] == record.sequence[..p]
      && u.sequence[p + |fragment|..] == record.sequence[p..]
      && u.definition == record.definition
      && (record.comment.Some? ==> u.comment == Some(record.comment.value + WatermarkComment(fragment, p)))
  {
    var u := UpdatedRecord(record, fragment, p).value;
    assert u.features[1..] == ReindexFeatures(record.features, p, |fragment|).value;
  }

  /** The features the loop of update_genbank_content iterates over as written: when the
      definition mentions "complete cds", the record is rebuilt as a new SeqRecord from
      its sequence, identifiers, description and annotations only, so its feature list
      is empty. */
  function FeaturesAfterDefinitionUpdate(record: Record): (fs: seq<Feature>)
    ensures fs == record.features || fs == []
    ensures fs == [] <== record.definition.Some? && Contains(Lower(record.definition.value), "complete cds")
  {
    if record.definition.Some? && Contains(Lower(record.definition.value), "complete cds") then []
    else record.features
  }

  /** A record whose definition mentions "complete cds" and which has a gene feature
      loses that feature as written, so the written file holds only the watermark
      feature; UpdatedRecord keeps it, re-indexed. */
  lemma CompleteCdsDropsFeatures(record: Record, gene: Feature)
    requires gene == Feature("gene", Some(Location(Exact(10), Exact(20), Some(1))), map[])
    requires record == Record("ACGT", 4, Some("complete cds"), None, [gene])
    ensures FeaturesAfterDefinitionUpdate(record) == []
    ensures ReindexFeatures(FeaturesAfterDefinitionUpdate(record), 0, 3) == Ok([])
    ensures UpdatedRecord(record, "GCA", 0).Ok?
    ensures UpdatedRecord(record, "GCA", 0).value.features
      == [WatermarkFeature("GCA", 0), gene.(location := Some(Location(Exact(13), Exact(23), Some(1))))]
  {
    var d := record.definition.value;
    assert Lower(d) == d;
    assert OccursAt(Lower(d), "complete cds", 0);
    ReindexFeaturesSingle(gene, 0, 3);
  }

  // ---------------------------------------------------------------------------
  // insert_watermark
  // ---------------------------------------------------------------------------

  /** Python's d[key] on a JSON value: a missing key raises KeyError, subscripting
      anything but an object with a string raises TypeError. */
  function Lookup(j: Json, key: string): (r: Result<Json>)
    ensures r.Ok? <==> j.JObj? && key in j.fields
    ensures r.Ok? ==> r.value == j.fields[key]
    ensures r.Err? ==> r.error == (if j.JObj? then KeyError(key) else TypeError)
  {
    if !j.JObj? then Err(TypeError)
    else if key in j.fields then Ok(j.fields[key])
    else Err(KeyError(key))
  }

  /** The value of the CDS start as a slice bound and a summand: an int, or a bool,
      which Python treats as 0 or 1. Anything else makes the slicing or the addition
      raise TypeError. */
  function StartValue(j: Json): (r: Result<int>)
    ensures r.Ok? <==> j.JInt? || j.JBool?
    ensures j.JInt? ==> r == Ok(j.i)
    ensures r.Err? ==> r.error == TypeError
  {
    match j
    case JInt(i) => Ok(i)
    case JBool(b) => Ok(if b then 1 else 0)
    case _ => Err(TypeError)
  }

  /** What insert_watermark has read and computed before it updates the record: the
      nucleotide sequence, the encoded fragment and the insertion point. */
  datatype Prepared = Prepared(sequence: string, fragment: string, insertPosition: int)

  /** The reads and computations of insert_watermark in source order, each with the
      exception it raises: the two "genbankInfo" lookups, encode_text, the "start"
      lookup, the types the splice and the info need, and the "genbankData" lookup. */
  function PrepareInsertion(table: map<char, string>, data: Json, text: string): (r: Result<Prepared>)
    requires IsCodec(table)
    ensures r.Ok? ==> EncodeText(table, text).Ok? && r.value.fragment == EncodeText(table, text).value
    ensures r.Ok? ==> Lookup(data, "genbankData").Ok?
    ensures r.Ok? ==> data.JObj? && "genbankInfo" in data.fields
    ensures r.Ok? ==> Lookup(data.fields["genbankInfo"], "nucleotideSequence") == Ok(JStr(r.value.sequence))
    ensures r.Ok? ==>
      && Lookup(data.fields["genbankInfo"], "cdsRegion").Ok?
      && Lookup(Lookup(data.fields["genbankInfo"], "cdsRegion").value, "start").Ok?
      && StartValue(Lookup(Lookup(data.fields["genbankInfo"], "cdsRegion").value, "start").value) == Ok(r.value.insertPosition)
  {
    var info := Lookup(data, "genbankInfo");
    if info.Err? then Err(info.error)
    else
      var sequence := Lookup(info.value, "nucleotideSequence");
      if sequence.Err? then Err(sequence.error)
      else
        var cds := Lookup(info.value, "cdsRegion");
        if cds.Err? then Err(cds.error)
        else
          var fragment := EncodeText(table, text);
          if fragment.Err? then Err(fragment.error)
          else
            var start := Lookup(cds.value, "start");
            if start.Err? then Err(start.error)
            else if !sequence.value.JStr? then Err(TypeError)
            else
              var p := StartValue(start.value);
              if p.Err? then Err(p.error)
              else
                var file := Lookup(data, "genbankData");
                if file.Err? then Err(file.error)
                else Ok(Prepared(sequence.value.s, fragment.value, p.value))
  }

  /** The outcome of insert_watermark, given the record parsed from "genbankData". */
  function Inserted(table: map<char, string>, data: Json, text: string, algorithm: string, position: string, parsed: Record)
    : (r: Result<Insertion>)
    requires IsCodec(table)
    ensures algorithm != "plaintext" || position != "before-cds" ==> r == Err(NotImplemented)
    ensures r.Ok? ==> PrepareInsertion(table, data, text).Ok?
  {
    if algorithm != "plaintext" || position != "before-cds" then Err(NotImplemented)
    else
      match PrepareInsertion(table, data, text)
      case Err(e) => Err(e)
      case Ok(pr) =>
        match UpdatedRecord(parsed, pr.fragment, pr.insertPosition)
        case Err(e) => Err(e)
        case Ok(u) =>
          Ok(Insertion(
            CreateWatermarkedSequence(pr.sequence, pr.fragment, pr.insertPosition),
            CreateWatermarkInfo(text, pr.fragment, pr.insertPosition),
            u))
  }

  /** insert_watermark: only plaintext + before-cds is implemented; the fragment is the
      encoded text, spliced in at the CDS start. */
  method InsertWatermark(table: map<char, string>, data: Json, text: string, algorithm: string, position: string, parsed: Record)
    returns (r: Result<Insertion>)
    requires IsCodec(table)
    ensures r == Inserted(table, data, text, algorithm, position, parsed)
  {
    if algorithm != "plaintext" || position != "before-cds" {
      return Err(NotImplemented);
    }
    var prepared := PrepareInsertion(table, data, text);
    if prepared.Err? {
      return Err(prepared.error);
    }
    var pr := prepared.value;
    var watermarked := CreateWatermarkedSequence(pr.sequence, pr.fragment, pr.insertPosition);
    var info := CreateWatermarkInfo(text, pr.fragment, pr.insertPosition);
    var updated := UpdateGenbankContent(parsed, pr.fragment, pr.insertPosition);
    if updated.Err? {
      return Err(updated.error);
    }
    r := Ok(Insertion(watermarked, info, updated.value));
  }

  /** On success the insertion point is the CDS region's "start", the fragment is the
      encoded text, the watermarked sequence is the "nucleotideSequence" with the
      fragment spliced in at that point (and, for a start inside the sequence, carries
      it exactly there), and the GenBank file is the parsed record updated with the
      same fragment at the same point. */
  lemma InsertAtCdsStart(table: map<char, string>, data: Json, text: string, parsed: Record)
    requires IsCodec(table) && Inserted(table, data, text, "plaintext", "before-cds", parsed).Ok?
    ensures var r := Inserted(table, data, text, "plaintext", "before-cds", parsed).value;
      && data.JObj? && "genbankInfo" in data.fields
      && Lookup(data.fields["genbankInfo"], "cdsRegion").Ok?
      && Lookup(Lookup(data.fields["genbankInfo"], "cdsRegion").value, "start").Ok?
      && StartValue(Lookup(Lookup(data.fields["genbankInfo"], "cdsRegion").value, "start").value) == Ok(r.watermarkInfo.start)
      && EncodeText(table, text) == Ok(r.watermarkInfo.sequence)
      && r.watermarkInfo.originalText == text
      && r.genbankFile.features[0] == WatermarkFeature(r.watermarkInfo.sequence, r.watermarkInfo.start)
    ensures var r := Inserted(table, data, text, "plaintext", "before-cds", parsed).value;
      && data.JObj? && "genbankInfo" in data.fields
      && Lookup(data.fields["genbankInfo"], "nucleotideSequence").Ok?
      && Lookup(data.fields["genbankInfo"], "nucleotideSequence").value.JStr?
      && var original := Lookup(data.fields["genbankInfo"], "nucleotideSequence").value.s;
         && r.watermarkedSequence == CreateWatermarkedSequence(original, r.watermarkInfo.sequence, r.watermarkInfo.start)
         && (0 <= r.watermarkInfo.start <= |original| ==>
               r.watermarkedSequence[r.watermarkInfo.start..r.watermarkInfo.end] == r.watermarkInfo.sequence)
    ensures var r := Inserted(table, data, text, "plaintext", "before-cds", parsed).value;
      UpdatedRecord(parsed, r.watermarkInfo.sequence, r.watermarkInfo.start) == Ok(r.genbankFile)
  {
    var pr := PrepareInsertion(table, data, text).value;
    var r := Inserted(table, data, text, "plaintext", "before-cds", parsed).value;
    assert r.watermarkedSequence == CreateWatermarkedSequence(pr.sequence, pr.fragment, pr.insertPosition);
    if 0 <= pr.insertPosition <= |pr.sequence| {
      WatermarkInfoLocatesFragment(pr.sequence, text, pr.fragment, pr.insertPosition);
    }
  }
}
