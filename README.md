# DNA watermark: a verified model

This project models the core of a DNA watermarking service. The service hides a short
text in a DNA sequence. It does this in two independent ways:

- **Triplet codec.** Each supported character (A–Z, 0–9 and 13 symbols, 49 in all) maps
  to a three-base codon. None of these codons is a start codon (ATG, GTG, TTG). The
  encoded text is spliced into a GenBank record at the start of its CDS region.
- **Bit-interleaving embedder.** The text's 8-bit binary form is written as one
  marker base after each host base: `A` for 0, `T` for 1. `G` filler bases are used once
  the host runs out. Extraction reads the markers back.

Around the core, the service layers do three things:

- validate the insertion request;
- look up stored watermark fragments in a query sequence;
- lay a sequence out in numbered lines of ten-base chunks.

## Modules

One Dafny module per source file:

| Dafny module | Source file | Contents |
|---|---|---|
| `CodonTable`, `Encoding` | `dna_watermark/encoding.py` | The codon table. Encode and decode for one character, for a text and for a DNA string. |
| `Core` | `dna_watermark/core.py` | Text to bits, and the interleaving embedder and its extractor. |
| `Watermark` | `dna_watermark/watermark.py` | The splice, the watermark info, the watermark feature and comment, the feature re-indexing loop, and the insertion entry point. |
| `InfringementService` | `service/infringement_service.py` | Case-insensitive fragment search, and the record filter. |
| `WatermarkService` | `service/watermark_service.py` | The request validators, and the order in which they run before the core. |
| `GenbankService` | `service/genbank_service.py` | `format_sequence`. |

Two supporting modules:

- `Common` holds Option, Result, the error values and a JSON value type.
- `PyStr` models the Python string operations the code relies on:
  - `upper` and `lower`;
  - `find`;
  - slicing with negative or out-of-range bounds;
  - `"".join(s.split())`;
  - decimal formatting of integers.

### How Python code becomes Dafny

- **Exceptions** are modelled as `Err` values that carry the exception's cause:
  - `KeyError` for an unsupported character or an unknown codon;
  - `ValueError` for a DNA length that is not a multiple of 3;
  - `NotImplementedError` for an unsupported mode;
  - the validators' `ValueError`s;
  - the `TypeError` raised when a JSON value has the wrong type.
- **Loops** of the source are methods with loops. Each is proved equal to a recursive
  specification function, and the properties are lemmas about those functions. This
  covers:
  - the embedder's `for` and `while` loops;
  - the extractor's loop;
  - the feature loop of `update_genbank_content`;
  - the record loop of `detect_sequence_infringement`;
  - the loop of `format_sequence`.
- **The codon table** is a constant map. The codec functions take the table as a
  parameter together with `IsCodec(table)`: injective, with codons that are
  upper-case, 3 bases long and not start codons. `CodonTable.EncodingTableIsCodec`
  proves that the standard table meets this, and the service layer uses the standard
  table.
- **Features and records.** A GenBank record is an abstract value: its sequence, its
  length, its definition, its comment and its features. A feature location is its two
  bounds and its strand.
  - A bound is `Exact(n)` or `Fuzzy(n)`. Only an exact bound survives
    `int(str(position))`.
  - `update_genbank_content` receives the record already parsed from the
    `"genbankData"` text, and returns the updated record rather than its text.

### Where the model departs from the code, and the code from its docstrings

The model follows the code, with one deliberate exception:

- **A "complete cds" definition.** As written, `update_genbank_content` rebuilds the
  record without its features when the record's `definition` annotation is present and
  contains "complete cds" (dna_watermark/watermark.py:158-173), so every original
  feature is lost. The test is on `record.annotations["definition"]`, not on the
  DEFINITION line: BioPython's GenBank reader keeps that line in `record.description`,
  so whether records parsed from GenBank text ever carry the annotation, and so reach
  this branch, is outside the model. The model's record has a `definition` field that
  stands for the annotation. The model
  computes the corrected feature list instead: the original features are kept and
  re-indexed. This affects `Watermark.UpdatedRecord`, `Watermark.UpdateGenbankContent`,
  `Watermark.Inserted`, `Watermark.InsertWatermark` and
  `WatermarkService.ServiceInsertion`. The code as written is modelled separately by
  `Watermark.FeaturesAfterDefinitionUpdate`; see "## Findings".

Where the code and its docstrings disagree:

- The docstrings name an "encrypted" algorithm (dna_watermark/watermark.py:28,
  service/watermark_service.py:17) and the "after-cds" and "smart-selection" positions
  (dna_watermark/watermark.py:29). The code implements none of these:
  - `insert_watermark` raises `NotImplementedError` for any mode other than plaintext
    before the CDS;
  - the model returns `Err(NotImplemented)` for them
    (`WatermarkService.AfterCdsIsNotImplemented`).
- `update_genbank_content` mutates the parsed record object and then serialises it.
  Only the serialised result is visible, so the model computes a new record value.

## Model

| member | source | states |
|---|---|---|
| PyStr.Upper | dna_watermark/encoding.py:52 | Upper-casing maps one character to one character. For every character, the result is a table key exactly when Python's `upper()` of it is one, so the codec succeeds and fails on the same inputs. |
| PyStr.Lower | service/infringement_service.py:23-24 | `str.lower` keeps the length and maps each character (ASCII). |
| PyStr.RemoveWhitespace | dna_watermark/watermark.py:257 | `"".join(t.split())` is no longer than `t` and holds no whitespace. A string without whitespace comes back unchanged, and one made only of whitespace gives "". |
| PyStr.RemoveWhitespaceAppend | dna_watermark/watermark.py:257 | Whitespace removal works piece by piece, so the other characters are kept in their order. |
| PyStr.SliceIndex | dna_watermark/watermark.py:96-98 | Python's clamping of a slice bound. A bound in range is kept, a too-large one becomes the length, and a negative one counts from the end. |
| PyStr.Find | service/infringement_service.py:27 | `str.find` returns -1 exactly when there is no occurrence. Otherwise it returns the leftmost occurrence. |
| PyStr.DecimalDigitsRoundTrip | service/infringement_service.py:33 | The decimal digits of n read back as n. |
| PyStr.IntToStringInjective | service/infringement_service.py:33 | Distinct integers format to distinct strings. |
| PyStr.RangeTextInjective | service/infringement_service.py:33 | A `"a..b"` position text determines both a and b. |
| CodonTable.CodonsAreSafe | dna_watermark/encoding.py:6-31 | Every codon of the table is 3 bases over ACGT, and none is ATG, GTG or TTG. |
| CodonTable.EncodingTableLeftInverse | dna_watermark/encoding.py:12-34 | An independent codon-by-codon decoder gives back every table key. |
| CodonTable.TripletCharShape | dna_watermark/encoding.py:6-31 | Anything that decoder accepts is a safe codon. |
| CodonTable.EncodingTableInjective | dna_watermark/encoding.py:34-37 | No two characters share a codon, so the reverse table is a true inverse. |
| CodonTable.KeysAreUpperCase | dna_watermark/encoding.py:12-34 | Every table key is its own upper case, so `char.upper()` can reach it. |
| CodonTable.EncodingTableSize | dna_watermark/encoding.py:12-34 | The merged table has exactly 49 entries. |
| CodonTable.EncodingTableIsCodec | dna_watermark/encoding.py:12-37 | The standard table is a codec: injective, with safe upper-case codons and upper-case keys. |
| Encoding.DecodingTable | dna_watermark/encoding.py:37 | The reverse table's keys are the codons, and each maps back to its own character. |
| Encoding.EncodeChar | dna_watermark/encoding.py:39-52 | Succeeds exactly when `c.upper()` is a key, with a safe codon. Otherwise it fails with a KeyError naming `c.upper()`. |
| Encoding.DecodeTriplet | dna_watermark/encoding.py:54-67 | Succeeds exactly when `t.upper()` is a codon, with the character whose codon it is. Otherwise it fails with a KeyError. |
| Encoding.EncodeCharIgnoresCase | dna_watermark/encoding.py:52 | `encode_char(c) == encode_char(c.upper())`. |
| Encoding.EncodeCharRoundTrip | dna_watermark/encoding.py:39-67 | `decode_triplet(encode_char(c)) == c.upper()` for every supported c. |
| Encoding.DecodeTripletRoundTrip | dna_watermark/encoding.py:39-67 | `encode_char(decode_triplet(t)) == t.upper()` whenever decoding succeeds. |
| Encoding.DecodeTripletIgnoresCase | dna_watermark/encoding.py:67 | `decode_triplet(t) == decode_triplet(t.upper())`. |
| Encoding.DecodeTripletMatchesReference | dna_watermark/encoding.py:54-67 | The table-based decoder agrees with the independent decoder. |
| Encoding.IsValidTriplet | dna_watermark/encoding.py:102-112 | True exactly when `decode_triplet` would succeed. A valid triplet is a safe codon. |
| Encoding.AllValidTriplets | dna_watermark/encoding.py:114-121 | As many triplets as table entries. Every one is valid and safe, and every codon is included. |
| Encoding.AllValidTripletsCount | dna_watermark/encoding.py:114-121 | There are exactly 49 valid triplets. |
| Encoding.EncodeText | dna_watermark/encoding.py:69-82 | Succeeds exactly when every character is supported. The output is 3·n long, and its i-th triplet is `encode_char(s[i])`. |
| Encoding.EncodeTextReportsFirstUnsupported | dna_watermark/encoding.py:69-82 | The KeyError names the upper case of the first unsupported character. |
| Encoding.DecodeTriplets | dna_watermark/encoding.py:100 | Decoding triplet by triplet succeeds exactly when every triplet is valid. Character i is the decoding of triplet i. |
| Encoding.DecodeDna | dna_watermark/encoding.py:84-100 | A length that is not a multiple of 3 fails with that length. Otherwise decoding succeeds exactly when every triplet is valid, and gives one character per triplet. |
| Encoding.DecodeTripletsReportsFirstUnknown | dna_watermark/encoding.py:54-100 | Triplet-by-triplet decoding fails with a KeyError naming the first invalid triplet, upper-cased. |
| Encoding.DecodeDnaReportsFirstUnknown | dna_watermark/encoding.py:84-100 | For a length that is a multiple of 3, the KeyError of `decode_dna` names the first invalid triplet, upper-cased. |
| Encoding.DecodeEncodeRoundTrip | dna_watermark/encoding.py:69-100 | `decode_dna(encode_text(s)) == s.upper()`. |
| Encoding.EncodeDecodeRoundTrip | dna_watermark/encoding.py:69-100 | `encode_text(decode_dna(d)) == d.upper()` whenever decoding succeeds. |
| Core.Format08b | dna_watermark/core.py:5 | `format(n, '08b')` is bits whose value is n. It is exactly 8 long when n < 256, and longer otherwise. |
| Core.TextToBinary | dna_watermark/core.py:3-5 | The output consists of '0'/'1' only. |
| Core.TextToBinaryBytes | dna_watermark/core.py:3-5 | For character codes below 256 the output is 8·n long, and byte i has the value of character i. |
| Core.Padded | dna_watermark/core.py:12-13 | Zero padding gives a multiple of 8, adds fewer than 8 characters, keeps the input as a prefix, and every added character is '0'. |
| Core.DecodeBytes | dna_watermark/core.py:15 | One character per 8-bit group, with the group's value. |
| Core.BinaryToText | dna_watermark/core.py:7-17 | Empty input, or input with a non-bit character, gives "". Otherwise the result has ceil(n/8) characters, character i being the value of padded group i. |
| Core.DecodeBytesOfBinary | dna_watermark/core.py:3-17 | Decoding the bytes of `text_to_binary(t)` gives back t. |
| Core.TextToBinaryRoundTrip | dna_watermark/core.py:3-17 | `binary_to_text(text_to_binary(t)) == t` for character codes below 256. |
| Core.DecodeBytesRoundTrip | dna_watermark/core.py:3-17 | Re-encoding decoded whole bytes gives back the bits. |
| Core.BinaryToTextRoundTrip | dna_watermark/core.py:7-17 | `text_to_binary(binary_to_text(b))` is b zero-padded to whole bytes. |
| Core.AppendFillerPairs | dna_watermark/core.py:44-49 | The `while` loop appends a `G` and a marker for each remaining bit. |
| Core.InterleaveBits | dna_watermark/core.py:34-49 | Both loops together produce the interleaving specification. |
| Core.EmbedWatermark | dna_watermark/core.py:19-51 | `embed_watermark(s, w)` interleaves s with the bits of w. |
| Core.InterleavedLayout | dna_watermark/core.py:37-49 | Output length is \|s\|+B when B ≤ \|s\|, and 2B otherwise (B = number of bits). Host base i is at 2i while bits last and at B+i after. A `G` filler is at 2i for every bit i past the host's end. Marker i is at 2i+1. |
| Core.PaddingMarks | dna_watermark/core.py:45-49 | In the filler part, pair i is a `G` at 2i followed by marker i at 2i+1. |
| Core.InterleavedIsDna | tests/test_core.py:22 | A host over ATCG gives an output over ATCG. |
| Core.MarkBits | dna_watermark/core.py:64-70 | The marker reading consists of bits only. |
| Core.MarkBitsAppend | dna_watermark/core.py:64-70 | Reading markers distributes over concatenation at an even boundary. |
| Core.MarkBitsOddLength | dna_watermark/core.py:64-66 | A final base at an even index is never read. |
| Core.ReadMarks | dna_watermark/core.py:63-70 | The extraction loop computes the marker reading. |
| Core.ExtractWatermark | dna_watermark/core.py:53-73 | `extract_watermark` decodes the marker reading. |
| Core.MarkBitsOfPadding | dna_watermark/core.py:45-70 | Reading the markers of the filler part gives back its bits. |
| Core.MarkBitsOfInterleaved | dna_watermark/core.py:37-70 | Reading the markers of an embedding gives the bits, followed by the reading of the unused host tail. |
| Core.EmbedExtractRoundTrip | dna_watermark/core.py:19-73 | `extract_watermark(embed_watermark(s, w)) == w` for byte-sized characters, when \|s\| ≤ 8·\|w\|+1. |
| Core.EmbedExtractRoundTripExactly | dna_watermark/core.py:19-73 | For byte-sized characters, the round trip holds exactly when the host bases left unmarked carry no 'A' or 'T' at their odd offsets. |
| Core.LongSequenceAddsNoise | dna_watermark/core.py:64-70 | With a host longer than that, host bases at odd indices are read as markers too, for example "AA" with "" extracts "\0". |
| Core.TestCoreExample | tests/test_core.py:6-27 | The test's host and message: the output is over ATCG and extracts to the message. |
| Watermark.CreateWatermarkedSequence | dna_watermark/watermark.py:79-99 | The length grows by the fragment's length. The result is the prefix up to the clamped point, then the fragment, then the rest. |
| Watermark.CreateWatermarkInfo | dna_watermark/watermark.py:101-124 | The interval is [p, p+\|fragment\|), with the fragment and the original text. |
| Watermark.WatermarkInfoLocatesFragment | dna_watermark/watermark.py:95-124 | The info interval of the spliced sequence holds exactly the fragment. |
| Watermark.ReindexBounds | dna_watermark/watermark.py:238-243 | Three cases. A feature at or after p shifts by L. One straddling p keeps its start and grows by L. One before p is unchanged. Order is kept, and the length changes by 0 or L. |
| Watermark.ReindexedBoundsCoverSameBases | dna_watermark/watermark.py:238-243 | The new bounds cover the same bases in the spliced sequence, with the fragment inside when it lands in the feature. |
| Watermark.ReindexFeature | dna_watermark/watermark.py:228-260 | A feature is skipped exactly when it has no location or a bound is fuzzy. One with an empty translation list raises. Otherwise it keeps its type, qualifiers and strand, gets the new exact bounds, and has its translation stripped of whitespace. |
| Watermark.ReindexFeaturesFails | dna_watermark/watermark.py:227-260 | The loop fails exactly when some kept feature has an empty translation list. |
| Watermark.ReindexFeaturesAppend | dna_watermark/watermark.py:227-260 | The loop distributes over concatenation, so features keep their relative order. |
| Watermark.ReindexFeaturesKeepsReadable | dna_watermark/watermark.py:227-260 | Every readable feature is kept, re-indexed, and nothing else appears. |
| Watermark.WatermarkNotes | dna_watermark/watermark.py:214-219 | Four notes, the first being "DNA watermark sequence". |
| Watermark.NotesDetermineFragment | dna_watermark/watermark.py:217-218 | The length note gives back the fragment's length, and the sequence note its lower-cased text. |
| Watermark.WatermarkFeature | dna_watermark/watermark.py:210-222 | Type "watermark", exact bounds \|fragment\| apart, a note and a plaintext type qualifier. |
| Watermark.WatermarkFeatureMatchesInfo | dna_watermark/watermark.py:210-219 | The feature spans the info interval, and its position note gives that interval 1-based. |
| Watermark.PositionNoteDeterminesInterval | dna_watermark/watermark.py:216 | The position note determines p and the length. |
| Watermark.CommentMatchesNotes | dna_watermark/watermark.py:195-219 | The comment block reports the same position, length and lower-cased fragment as the notes, one per line. |
| Watermark.UpdatedComment | dna_watermark/watermark.py:195-203 | A comment is extended, keeping its old text as a prefix. An absent comment stays absent. |
| Watermark.UpdatedRecord | dna_watermark/watermark.py:126-263 | Fails exactly when the feature loop fails. On success the sequence and its recorded length grow by the fragment's length. For a "complete cds" definition it keeps the original features (the corrected behaviour; see "## Findings"). |
| Watermark.ReindexOne | dna_watermark/watermark.py:228-260 | The loop body computes the per-feature re-indexing. |
| Watermark.AppendReindexed | dna_watermark/watermark.py:227-260 | The loop appends the re-indexed features after the watermark feature. |
| Watermark.UpdateGenbankContent | dna_watermark/watermark.py:126-263 | The imperative update computes the updated record, with the corrected feature list for a "complete cds" definition. |
| Watermark.UpdatedRecordLayout | dna_watermark/watermark.py:146-263 | Covers the whole updated record: the watermark feature first, then the re-indexed features; the lower-cased fragment at p with prefix and suffix unchanged; the definition kept; the comment extended. |
| Watermark.FeaturesAfterDefinitionUpdate | dna_watermark/watermark.py:158-173 | As written, a definition containing "complete cds" leaves the record with no features. |
| Watermark.CompleteCdsDropsFeatures | dna_watermark/watermark.py:158-173 | A one-gene record shows the loss. The corrected update keeps the gene, shifted by 3. |
| Watermark.Lookup | dna_watermark/watermark.py:42-43 | Subscripting succeeds exactly on an object with the key. Otherwise it raises KeyError, or TypeError on a non-object. |
| Watermark.StartValue | dna_watermark/watermark.py:47 | The start must be an int (or bool); anything else is a TypeError. |
| Watermark.PrepareInsertion | dna_watermark/watermark.py:41-68 | On success the fragment is `encode_text(text)`, the sequence is the "nucleotideSequence" string, the insertion point is `cdsRegion["start"]`, and "genbankData" is present. |
| Watermark.Inserted | dna_watermark/watermark.py:16-77 | Any mode other than plaintext before the CDS fails with NotImplemented. Success implies every read succeeded. The record update is the corrected one for a "complete cds" definition. |
| Watermark.InsertWatermark | dna_watermark/watermark.py:16-77 | `insert_watermark` computes the specified outcome, with the corrected record update. |
| Watermark.InsertAtCdsStart | dna_watermark/watermark.py:46-77 | Links a successful result to its inputs. The insertion point is `cdsRegion["start"]` and the fragment is the encoded text. The watermarked sequence is "nucleotideSequence" with the fragment spliced in there, holding it at the info interval when the start is in range. The GenBank file is the parsed record updated at the same point, and the info carries the original text. |
| InfringementService.FindSequenceMatch | service/infringement_service.py:7-41 | A match carries a position and a matched sequence. |
| InfringementService.FindSequenceMatchSpec | service/infringement_service.py:23-41 | A match is reported exactly when the lower-cased fragment occurs in the lower-cased target. The position is `"s+1..s+len"` for the leftmost s, and the matched sequence is the lower-cased fragment. Without a match both are None. |
| InfringementService.MatchPositionNamesOccurrence | service/infringement_service.py:30-33 | A reported `"a..b"` names an occurrence at a-1 with b = a-1+length. |
| InfringementService.FindSequenceMatchIgnoresCase | service/infringement_service.py:23-24 | The result does not depend on case. |
| InfringementService.MatchesOf | service/infringement_service.py:91-121 | No more entries than records. |
| InfringementService.MatchesOfAppend | service/infringement_service.py:91-121 | The filter distributes over concatenation, so it keeps record order. |
| InfringementService.MatchesOfSound | service/infringement_service.py:91-121 | Every entry is a matching input record with its own match result. |
| InfringementService.MatchesOfComplete | service/infringement_service.py:91-121 | Every matching record is reported. |
| InfringementService.DetectSequenceInfringement | service/infringement_service.py:43-126 | An empty query fails. Otherwise the entries are the filter's result, and the total is their count. |
| GenbankService.ChunksShape | service/genbank_service.py:98 | There are ceil(n/10) chunks, all 10 long except the last (1–10), and together they form the line. |
| GenbankService.JoinSpacedRoundTrip | service/genbank_service.py:98-101 | Removing the spaces of the joined chunks gives their concatenation. |
| GenbankService.FormatSequence | service/genbank_service.py:80-103 | A zero line length fails, and a negative one gives no lines. Otherwise the result is the line specification, which does not depend on positions_per_line. |
| GenbankService.LineCountCovers | service/genbank_service.py:92 | The number of lines times the line length covers the sequence. |
| GenbankService.LineCountTight | service/genbank_service.py:92 | One line fewer would not cover it, so the count is the ceiling. |
| GenbankService.FormattedLength | service/genbank_service.py:92 | The number of lines is that count. |
| GenbankService.FormattedLine | service/genbank_service.py:92-101 | Line k is numbered k·L+1 and holds the chunks of bases k·L up to (k+1)·L. |
| GenbankService.LineTextRoundTrip | service/genbank_service.py:94-101 | A line without its spaces is the bases it covers. |
| GenbankService.FormattedRoundTrip | service/genbank_service.py:92-103 | All lines, spaces removed and concatenated, give back a space-free sequence. |
| WatermarkService.ValidateGenbankData | service/watermark_service.py:40-64 | Passes exactly when genbankData is a string and genbankInfo an object holding nucleotideSequence and cdsRegion. The first missing or mistyped field is reported, in source order. |
| WatermarkService.ValidateWatermarkText | service/watermark_service.py:66-79 | Passes exactly for lengths 1 to 100. The empty and the too-long text get distinct errors. |
| WatermarkService.ValidatePosition | service/watermark_service.py:81-92 | Passes exactly for "before-cds" and "after-cds", and otherwise names the position. |
| WatermarkService.Validated | service/watermark_service.py:27-30 | The three validators run in order, and the first failure wins: the data's error, else the text's error, else the position's outcome. |
| WatermarkService.ServiceInsertion | service/watermark_service.py:6-38 | A failed validation is returned before the core runs. A passing one gives exactly the core insertion with the standard table. The core's record update is the corrected one for a "complete cds" definition. |
| WatermarkService.InsertWatermarkToGenbank | service/watermark_service.py:6-38 | Runs the validations and then the core with the standard table. |
| WatermarkService.AfterCdsIsNotImplemented | service/watermark_service.py:28-38 | "after-cds" passes validation but then fails with NotImplemented. |
| WatermarkService.ValidatedRequestFailures | service/watermark_service.py:28-38 | After validation, the core's reads can fail only in three ways: an unsupported character, a missing "start", or a TypeError. |

## Left out

- The BioPython layer is not modelled, because it consists of foreign library calls:
  - parsing "genbankData" (`SeqIO.read`) and serialising the result (`SeqIO.write`);
  - the text of the `genbankFile` string;
  - parse errors of malformed GenBank text.

  The record is an input value and the result a record value.
- The new definition text (dna_watermark/watermark.py:161-164) is not modelled, being
  BioPython's description field. The model keeps the definition annotation as it was.
- The reference update is not modelled (dna_watermark/watermark.py:176-192). It rewrites
  BioPython reference objects with a regular expression.
- Qualifier values other than "translation" are not modelled: they are carried
  unchanged. A feature location is represented by its outer bounds, because a compound
  location is only read through `.start` and `.end`.
- PyStr.Lower: only ASCII letters are case-mapped. Python's full Unicode `lower()` is
  not modelled.
- PyStr.Upper maps ASCII letters and the two non-ASCII characters whose upper case is a
  table key (ı and ſ), one character to one character. Python's `upper()` can change
  the length ('ß' becomes "SS") and upper-cases other non-ASCII letters; the model
  leaves those characters as they are. Whether a character is supported is unaffected,
  but the value a KeyError names differs: for 'é' the model names 'é' where Python
  names 'É'.
- Core.BinaryToText: a non-bit character gives "" (the ValueError path). Python's
  `int(x, 2)` also accepts surrounding whitespace, underscores, a sign, a `0b`/`0B`
  prefix and non-ASCII decimal digits such as '١'; those inputs are not modelled.
- Core.EmbedExtractRoundTrip: the round trip is proved when the host is at most one
  base longer than the number of bits. With a longer host, unused host bases at odd
  offsets are read as markers (`Core.MarkBitsOfInterleaved`): the round trip then holds
  exactly when none of them is an 'A' or a 'T' (`Core.EmbedExtractRoundTripExactly`),
  and "AA" with "" extracts "\0" (`Core.LongSequenceAddsNoise`).
- The database is not modelled:
  - `detect_sequence_infringement` receives the records as a list;
  - timestamps, passwords, the GenBank texts and the newline-escaping replaces of the
    stored fields are not carried.
- HTTP routes, application wiring, `convert_to_serializable` and the debug prints are
  not modelled.
- The "encrypted" algorithm and the "after-cds" and "smart-selection" positions are
  not modelled. The code does not implement them; it raises `NotImplementedError`,
  which is modelled.
- Default arguments are not modelled: `format_sequence`'s `line_length=60` and
  `positions_per_line=10` (service/genbank_service.py:80) and `insert_watermark`'s
  `algorithm="plaintext"` and `position="before-cds"` (dna_watermark/watermark.py:19-20). Every model member takes these as explicit
  parameters; a call relying on a default is the call with that value passed.
- Exception messages are not modelled; each error value records the cause and the
  offending value.

## Findings

| source | as written | input that shows it | evidently intended | confidence | as-written member | corrected member |
|---|---|---|---|---|---|---|
| dna_watermark/watermark.py:158-173 | When the `definition` annotation is present and contains "complete cds", the record is replaced by a new SeqRecord built without `features=`. The feature loop then iterates over an empty list, and every original feature is dropped. Only the watermark feature survives. | A record "ACGT" whose `definition` annotation is "complete cds", with one gene at [10,20) on strand 1, fragment "GCA" inserted at 0. | Only the definition changes. The original features are kept and re-indexed (the gene moves to [13,23)). | high if the annotation is present; whether GenBank parsing ever sets it is unverified; not executed | Watermark.FeaturesAfterDefinitionUpdate, Watermark.CompleteCdsDropsFeatures | Watermark.UpdatedRecord, Watermark.UpdatedRecordLayout |
