/** The service layer in front of insert_watermark (service/watermark_service.py): it
    checks the request's shape, the watermark text's length and the insertion position,
    then hands over to the core with the standard codon table. */
module WatermarkService {
  import opened Common
  import opened CodonTable
  import opened Encoding
  import opened Watermark

  /** validate_genbank_data: "genbankData" must be a string and "genbankInfo" an object,
      each checked for presence and then type, in that order; then "genbankInfo" must
      hold "nucleotideSequence" and "cdsRegion". */
  function ValidateGenbankData(data: map<string, Json>): (r: Outcome)
    ensures r == Pass <==>
      && "genbankData" in data && data["genbankData"].JStr?
      && "genbankInfo" in data && data["genbankInfo"].JObj?
      && "nucleotideSequence" in data["genbankInfo"].fields
      && "cdsRegion" in data["genbankInfo"].fields
    ensures "genbankData" !in data ==> r == Fail(MissingField("genbankData"))
    ensures "genbankData" in data && !data["genbankData"].JStr? ==> r == Fail(WrongFieldType("genbankData"))
    ensures "genbankData" in data && data["genbankData"].JStr? && "genbankInfo" !in data ==>
      r == Fail(MissingField("genbankInfo"))
    ensures "genbankData" in data && data["genbankData"].JStr? && "genbankInfo" in data && !data["genbankInfo"].JObj? ==>
      r == Fail(WrongFieldType("genbankInfo"))
    ensures r.Fail? && r.error !in {MissingField("genbankData"), WrongFieldType("genbankData"),
                                    MissingField("genbankInfo"), WrongFieldType("genbankInfo")} ==>
      && data["genbankInfo"].JObj?
      && r.error == (if "nucleotideSequence" !in data["genbankInfo"].fields then MissingNucleotideSequence else MissingCdsRegion)
  {
    if "genbankData" !in data then Fail(MissingField("genbankData"))
    else if !data["genbankData"].JStr? then Fail(WrongFieldType("genbankData"))
    else if "genbankInfo" !in data then Fail(MissingField("genbankInfo"))
    else if !data["genbankInfo"].JObj? then Fail(WrongFieldType("genbankInfo"))
    else if "nucleotideSequence" !in data["genbankInfo"].fields then Fail(MissingNucleotideSequence)
    else if "cdsRegion" !in data["genbankInfo"].fields then Fail(MissingCdsRegion)
    else Pass
  }

  /** validate_watermark_text: the text must be non-empty and at most 100 characters. */
  function ValidateWatermarkText(text: string): (r: Outcome)
    ensures r == Pass <==> 1 <= |text| <= 100
    ensures text == [] ==> r == Fail(EmptyWatermarkText)
    ensures |text| > 100 ==> r == Fail(WatermarkTextTooLong)
  {
    if text == [] then Fail(EmptyWatermarkText)
    else if |text| > 100 then Fail(WatermarkTextTooLong)
    else Pass
  }

  /** validate_position: only "before-cds" and "after-cds" are accepted. */
  function ValidatePosition(position: string): (r: Outcome)
    ensures r == Pass <==> position == "before-cds" || position == "after-cds"
    ensures r.Fail? ==> r.error == UnsupportedPosition(position)
  {
    if position == "before-cds" || position == "after-cds" then Pass
    else Fail(UnsupportedPosition(position))
  }

  /** The three validations in the order insert_watermark_to_genbank runs them. */
  function Validated(data: map<string, Json>, text: string, position: string): (r: Outcome)
    ensures r == Pass <==>
      ValidateGenbankData(data) == Pass && ValidateWatermarkText(text) == Pass && ValidatePosition(position) == Pass
    ensures ValidateGenbankData(data).Fail? ==> r == ValidateGenbankData(data)
    ensures ValidateGenbankData(data) == Pass && ValidateWatermarkText(text).Fail? ==> r == ValidateWatermarkText(text)
    ensures ValidateGenbankData(data) == Pass && ValidateWatermarkText(text) == Pass ==> r == ValidatePosition(position)
  {
    if ValidateGenbankData(data).Fail? then ValidateGenbankData(data)
    else if ValidateWatermarkText(text).Fail? then ValidateWatermarkText(text)
    else ValidatePosition(position)
  }

  /** The outcome of insert_watermark_to_genbank, given the record parsed from
      "genbankData": the first failed validation, or else the core insertion with the
      standard codon table. */
  function ServiceInsertion(data: map<string, Json>, text: string, algorithm: string, position: string, parsed: Record)
    : (r: Result<Insertion>)
    ensures Validated(data, text, position).Fail? ==> r == Err(Validated(data, text, position).error)
    ensures Validated(data, text, position) == Pass ==>
      IsCodec(EncodingTable) && r == Inserted(EncodingTable, JObj(data), text, algorithm, position, parsed)
  {
    if Validated(data, text, position).Fail? then Err(Validated(data, text, position).error)
    else
      EncodingTableIsCodec();
      Inserted(EncodingTable, JObj(data), text, algorithm, position, parsed)
  }

  /** insert_watermark_to_genbank: the validations, then the core insertion. */
  method InsertWatermarkToGenbank(data: map<string, Json>, text: string, algorithm: string, position: string, parsed: Record)
    returns (r: Result<Insertion>)
    ensures r == ServiceInsertion(data, text, algorithm, position, parsed)
  {
    var check := ValidateGenbankData(data);
    if check.Fail? {
      return Err(check.error);
    }
    check := ValidateWatermarkText(text);
    if check.Fail? {
      return Err(check.error);
    }
    check := ValidatePosition(position);
    if check.Fail? {
      return Err(check.error);
    }
    EncodingTableIsCodec();
    r := InsertWatermark(EncodingTable, JObj(data), text, algorithm, position, parsed);
  }

  /** "after-cds" passes validation but the core does not implement it, so a request
      that asks for it always fails with NotImplemented. */
  lemma AfterCdsIsNotImplemented(data: map<string, Json>, text: string, algorithm: string, parsed: Record)
    requires ValidateGenbankData(data) == Pass && ValidateWatermarkText(text) == Pass
    ensures Validated(data, text, "after-cds") == Pass
    ensures ServiceInsertion(data, text, algorithm, "after-cds", parsed) == Err(NotImplemented)
  {
  }

  /** Once the request passes validation, the only ways left for the core's reads to
      fail are an unsupported character in the text, a CDS region without "start", and
      a value of the wrong type (a CDS region that is not an object, a start that is not
      an integer, a sequence that is not a string). */
  lemma ValidatedRequestFailures(table: map<char, string>, data: map<string, Json>, text: string)
    requires IsCodec(table)
    requires ValidateGenbankData(data) == Pass
    requires PrepareInsertion(table, JObj(data), text).Err?
    ensures var e := PrepareInsertion(table, JObj(data), text).error;
      e.UnsupportedCharacter? || e == KeyError("start") || e == TypeError
  {
    if EncodeText(table, text).Err? {
      EncodeTextReportsFirstUnsupported(table, text);
    }
  }
}
