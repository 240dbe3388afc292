/** Values shared by every module of the model: optional values, results that
    carry the exceptions the Python code raises, and JSON-shaped request data. */
module Common {

  /** The smaller of two integers. */
  function Min(a: int, b: int): int
  {
    if a <= b then a else b
  }

  datatype Option<+T> = None | Some(value: T)

  /** The exceptions of the modelled code, one constructor per distinct raise site
      (or per Python built-in failure the code runs into). */
  datatype Error =
    | UnsupportedCharacter(ch: char)      // KeyError in encode_char: the upper-cased character is not a table key
    | UnknownTriplet(triplet: string)     // KeyError in decode_triplet: the upper-cased triplet is not a table key
    | LengthNotMultipleOf3(length: nat)   // ValueError in decode_dna
    | NotImplemented                      // NotImplementedError: only plaintext + before-cds is supported
    | KeyError(key: string)               // a dictionary lookup on request data found no such key
    | TypeError                           // request data of the wrong shape (subscripting or slicing a non-container)
    | EmptyTranslation                    // IndexError: a "translation" qualifier with an empty value list
    | MissingField(field: string)         // ValueError: validate_genbank_data, field absent
    | WrongFieldType(field: string)       // ValueError: validate_genbank_data, field of the wrong type
    | MissingNucleotideSequence           // ValueError: genbankInfo has no nucleotideSequence
    | MissingCdsRegion                    // ValueError: genbankInfo has no cdsRegion
    | EmptyWatermarkText                  // ValueError: validate_watermark_text, empty text
    | WatermarkTextTooLong                // ValueError: validate_watermark_text, more than 100 characters
    | UnsupportedPosition(position: string) // ValueError: validate_position
    | EmptySequence                       // ValueError: detect_sequence_infringement on ""
    | ZeroLineLength                      // ValueError: range() with a zero step in format_sequence

  datatype Result<+T> = Ok(value: T) | Err(error: Error)

  /** The result of a check that returns nothing or raises. */
  datatype Outcome = Pass | Fail(error: Error)

  /** A decoded JSON value, as Flask's request.get_json() hands it to the services. */
  datatype Json =
    | JNull
    | JBool(b: bool)
    | JInt(i: int)
    | JFloat(r: real)
    | JStr(s: string)
    | JList(items: seq<Json>)
    | JObj(fields: map<string, Json>)
}
