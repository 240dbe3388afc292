/** The fixed table of dna_watermark/encoding.py from 49 characters to
    three-base codons, and the facts about it the codec relies on. */
module CodonTable {
  import opened Common
  import opened PyStr

  /** LETTERS */
  const Letters: map<char, string> := map[
    'A' := "ACC", 'B' := "AGT", 'C' := "CAT", 'D' := "CCA", 'E' := "CGT", 'F' := "CGA",
    'G' := "CGC", 'H' := "CGG", 'I' := "CTA", 'J' := "CTC", 'K' := "CTG", 'L' := "GAC",
    'M' := "GCA", 'N' := "GCC", 'O' := "GCG", 'P' := "GCT", 'Q' := "GGA", 'R' := "GGC",
    'S' := "GGG", 'T' := "GTC", 'U' := "GTT", 'V' := "TAA", 'W' := "TAG", 'X' := "TCA",
    'Y' := "TCC", 'Z' := "TCG"]

  /** NUMBERS */
  const Numbers: map<char, string> := map[
    '0' := "ACA", '1' := "ACG", '2' := "ACT", '3' := "AGA", '4' := "AGC", '5' := "AGG",
    '6' := "CAA", '7' := "CAC", '8' := "CAG", '9' := "CCT"]

  /** PUNCTUATION, space included */
  const Punctuation: map<char, string> := map[
    '.' := "TGA", ',' := "TCT", '?' := "TGC", '!' := "TGG", '-' := "AAC", '_' := "AAG",
    '(' := "AAT", ')' := "ATA", '[' := "ATC", ']' := "ATT", '@' := "CCC", '/' := "GAG",
    ' ' := "AAA"]

  /** ENCODING_TABLE, the letters, digits and punctuation merged into one table; on a
      shared key the later table would win, as with Dafny's map union (the keys are
      disjoint). */
  const EncodingTable: map<char, string> := Letters + Numbers + Punctuation

  /** The translation start codons the table is designed to avoid. */
  const StartCodons: set<string> := {"ATG", "GTG", "TTG"}

  predicate IsBase(c: char)
  {
    c == 'A' || c == 'C' || c == 'G' || c == 'T'
  }

  predicate IsCodon(t: string)
  {
    |t| == 3 && IsBase(t[0]) && IsBase(t[1]) && IsBase(t[2])
  }

  /** The table read backwards, written out codon by codon: a reference decoding
      defined independently of EncodingTable. */
  function TripletChar(t: string): Option<char>
  {
    if |t| != 3 then None else
    match (t[0], t[1], t[2])
    case ('A', 'A', 'A') => Some(' ')  case ('A', 'A', 'C') => Some('-')
    case ('A', 'A', 'G') => Some('_')  case ('A', 'A', 'T') => Some('(')
    case ('A', 'C', 'A') => Some('0')  case ('A', 'C', 'C') => Some('A')
    case ('A', 'C', 'G') => Some('1')  case ('A', 'C', 'T') => Some('2')
    case ('A', 'G', 'A') => Some('3')  case ('A', 'G', 'C') => Some('4')
    case ('A', 'G', 'G') => Some('5')  case ('A', 'G', 'T') => Some('B')
    case ('A', 'T', 'A') => Some(')')  case ('A', 'T', 'C') => Some('[')
    case ('A', 'T', 'T') => Some(']')
    case ('C', 'A', 'A') => Some('6')  case ('C', 'A', 'C') => Some('7')
    case ('C', 'A', 'G') => Some('8')  case ('C', 'A', 'T') => Some('C')
    case ('C', 'C', 'A') => Some('D')  case ('C', 'C', 'C') => Some('@')
    case ('C', 'C', 'T') => Some('9')
    case ('C', 'G', 'A') => Some('F')  case ('C', 'G', 'C') => Some('G')
    case ('C', 'G', 'G') => Some('H')  case ('C', 'G', 'T') => Some('E')
    case ('C', 'T', 'A') => Some('I')  case ('C', 'T', 'C') => Some('J')
    case ('C', 'T', 'G') => Some('K')
    case ('G', 'A', 'C') => Some('L')  case ('G', 'A', 'G') => Some('/')
    case ('G', 'C', 'A') => Some('M')  case ('G', 'C', 'C') => Some('N')
    case ('G', 'C', 'G') => Some('O')  case ('G', 'C', 'T') => Some('P')
    case ('G', 'G', 'A') => Some('Q')  case ('G', 'G', 'C') => Some('R')
    case ('G', 'G', 'G') => Some('S')
    case ('G', 'T', 'C') => Some('T')  case ('G', 'T', 'T') => Some('U')
    case ('T', 'A', 'A') => Some('V')  case ('T', 'A', 'G') => Some('W')
    case ('T', 'C', 'A') => Some('X')  case ('T', 'C', 'C') => Some('Y')
    case ('T', 'C', 'G') => Some('Z')  case ('T', 'C', 'T') => Some(',')
    case ('T', 'G', 'A') => Some('.')  case ('T', 'G', 'C') => Some('?')
    case ('T', 'G', 'G') => Some('!')
    case _ => None
  }

  /** Whatever the reference decoding accepts is a codon other than a start codon. */
  lemma TripletCharShape(t: string)
    requires TripletChar(t).Some?
    ensures IsCodon(t) && t !in StartCodons
  {
  }

  lemma LettersLeftInverse()
    ensures forall c | c in Letters :: TripletChar(Letters[c]) == Some(c)
  {
    forall c | c in Letters
      ensures TripletChar(Letters[c]) == Some(c)
    {
      if c <= 'M' {
        if c <= 'F' {} else {}
      } else {
        if c <= 'S' {} else {}
      }
    }
  }

  lemma NumbersLeftInverse()
    ensures forall c | c in Numbers :: TripletChar(Numbers[c]) == Some(c)
  {
  }

  lemma PunctuationLeftInverse()
    ensures forall c | c in Punctuation :: TripletChar(Punctuation[c]) == Some(c)
  {
  }

  /** The reference decoding undoes the table on every key. */
  lemma EncodingTableLeftInverse()
    ensures forall c | c in EncodingTable :: TripletChar(EncodingTable[c]) == Some(c)
  {
    LettersLeftInverse();
    NumbersLeftInverse();
    PunctuationLeftInverse();
    forall c | c in EncodingTable
      ensures TripletChar(EncodingTable[c]) == Some(c)
    {
      if c in Punctuation {
        assert EncodingTable[c] == Punctuation[c];
      } else if c in Numbers {
        assert EncodingTable[c] == Numbers[c];
      } else {
        assert EncodingTable[c] == Letters[c];
      }
    }
  }

  /** Every codon of the table is three bases over A, C, G, T and none is a start codon. */
  lemma CodonsAreSafe()
    ensures forall c | c in EncodingTable :: IsCodon(EncodingTable[c]) && EncodingTable[c] !in StartCodons
  {
    EncodingTableLeftInverse();
    forall c | c in EncodingTable
      ensures IsCodon(EncodingTable[c]) && EncodingTable[c] !in StartCodons
    {
      TripletCharShape(EncodingTable[c]);
    }
  }

  /** No two characters share a codon. */
  lemma EncodingTableInjective()
    ensures forall c, d | c in EncodingTable && d in EncodingTable && c != d :: EncodingTable[c] != EncodingTable[d]
  {
    EncodingTableLeftInverse();
  }

  /** The reference decoding yields only characters that are their own upper case. */
  lemma TripletCharIsUpperCase(t: string)
    requires TripletChar(t).Some?
    ensures UpperChar(TripletChar(t).value) == TripletChar(t).value
  {
  }

  /** Every key is its own upper case, so looking up c.upper() finds exactly the keys. */
  lemma KeysAreUpperCase()
    ensures forall c | c in EncodingTable :: UpperChar(c) == c
  {
    EncodingTableLeftInverse();
    forall c | c in EncodingTable
      ensures UpperChar(c) == c
    {
      TripletCharIsUpperCase(EncodingTable[c]);
    }
  }

  const LettersAtoM: set<char> := {'A', 'B', 'C', 'D', 'E', 'F', 'G', 'H', 'I', 'J', 'K', 'L', 'M'}
  const LettersNtoZ: set<char> := {'N', 'O', 'P', 'Q', 'R', 'S', 'T', 'U', 'V', 'W', 'X', 'Y', 'Z'}
  const Digits: set<char> := {'0', '1', '2', '3', '4', '5', '6', '7', '8', '9'}
  const Symbols: set<char> := {'.', ',', '?', '!', '-', '_', '(', ')', '[', ']', '@', '/', ' '}

  lemma LetterHalvesDisjoint()
    ensures LettersAtoM !! LettersNtoZ
  {
    KeyRanges();
  }

  lemma LettersAndDigitsDisjoint()
    ensures LettersAtoM + LettersNtoZ !! Digits
  {
    KeyRanges();
  }

  lemma SymbolsDisjoint()
    ensures LettersAtoM + LettersNtoZ + Digits !! Symbols
  {
    KeyRanges();
  }

  lemma DisjointUnionCard<T>(a: set<T>, b: set<T>)
    requires a !! b
    ensures |a + b| == |a| + |b|
  {
    assert a * b == {};
  }

  lemma LettersAtoMSize() ensures |LettersAtoM| == 13 {}
  lemma LettersNtoZSize() ensures |LettersNtoZ| == 13 {}
  lemma DigitsSize() ensures |Digits| == 10 {}
  lemma SymbolsSize() ensures |Symbols| == 13 {}
  lemma LetterKeys() ensures Letters.Keys == LettersAtoM + LettersNtoZ {}
  lemma NumberKeys() ensures Numbers.Keys == Digits {}
  lemma PunctuationKeys() ensures Punctuation.Keys == Symbols {}
  lemma KeyRanges()
    ensures forall c | c in LettersAtoM :: 'A' <= c <= 'M'
    ensures forall c | c in LettersNtoZ :: 'N' <= c <= 'Z'
    ensures forall c | c in Digits :: '0' <= c <= '9'
    ensures forall c | c in Symbols :: !('A' <= c <= 'Z') && !('0' <= c <= '9')
  {
  }

  /** The table has 49 entries: 26 letters, 10 digits and 13 symbols. */
  lemma EncodingTableSize()
    ensures |EncodingTable| == 49
  {
    LettersAtoMSize();
    LettersNtoZSize();
    DigitsSize();
    SymbolsSize();
    LetterKeys();
    NumberKeys();
    PunctuationKeys();
    LetterHalvesDisjoint();
    LettersAndDigitsDisjoint();
    SymbolsDisjoint();
    DisjointUnionCard(LettersAtoM, LettersNtoZ);
    DisjointUnionCard(LettersAtoM + LettersNtoZ, Digits);
    DisjointUnionCard(LettersAtoM + LettersNtoZ + Digits, Symbols);
    assert EncodingTable.Keys == LettersAtoM + LettersNtoZ + Digits + Symbols;
  }

  /** An injective map has as many distinct values as keys. */
  lemma {:induction false} InjectiveValuesCard<K, V>(m: map<K, V>)
    requires forall a, b | a in m && b in m && a != b :: m[a] != m[b]
    ensures |m.Values| == |m.Keys|
    decreases |m.Keys|
  {
    if m != map[] {
      var k :| k in m;
      var rest := m - {k};
      InjectiveValuesCard(rest);
      assert m.Keys == rest.Keys + {k};
      assert m.Values == rest.Values + {m[k]};
      assert m[k] !in rest.Values;
    }
  }
  /** No two characters share a codon. */
  predicate Injective(table: map<char, string>)
  {
    forall c, d | c in table && d in table && c != d :: table[c] != table[d]
  }

  /** What the codec needs of a table: distinct codons, each three bases other than
      a start codon, under keys that are their own upper case. */
  predicate IsCodec(table: map<char, string>)
  {
    && Injective(table)
    && (forall c | c in table :: UpperChar(c) == c)
    && (forall c | c in table :: IsCodon(table[c]) && table[c] !in StartCodons)
  }

  /** ENCODING_TABLE has every property the codec relies on. */
  lemma EncodingTableIsCodec()
    ensures IsCodec(EncodingTable)
  {
    EncodingTableInjective();
    KeysAreUpperCase();
    CodonsAreSafe();
  }
}

/** The codec of dna_watermark/encoding.py. It is written over any table that
    satisfies IsCodec; the watermarking code always passes EncodingTable, which
    satisfies it by EncodingTableIsCodec. */
module Encoding {
  import opened Common
  import opened PyStr
  import opened CodonTable

  /** DECODING_TABLE, the table read backwards (each codon mapped to its character):
      since the table is injective no entry overwrites another, and this is its exact
      inverse. */
  function DecodingTable(table: map<char, string>): (m: map<string, char>)
    requires Injective(table)
    ensures m.Keys == table.Values
    ensures forall c | c in table :: table[c] in m && m[table[c]] == c
    ensures forall t | t in m :: m[t] in table && table[m[t]] == t
  {
    map c | c in table :: table[c] := c
  }

  /** A character the table can encode, after case folding. */
  predicate IsSupported(table: map<char, string>, c: char)
  {
    UpperChar(c) in table
  }

  /** A three-base codon is its own upper case. */
  lemma CodonIsUpperCase(t: string)
    requires IsCodon(t)
    ensures Upper(t) == t
  {
  }

  /** encode_char: the codon of c.upper(); KeyError when that is not a key. */
  function EncodeChar(table: map<char, string>, c: char): (r: Result<string>)
    requires IsCodec(table)
    ensures r.Ok? <==> IsSupported(table, c)
    ensures r.Ok? ==> IsCodon(r.value) && r.value !in StartCodons
    ensures r.Err? ==> r.error == UnsupportedCharacter(UpperChar(c))
  {
    var key := UpperChar(c);
    if key in table then Ok(table[key]) else Err(UnsupportedCharacter(key))
  }

  /** decode_triplet: the character of triplet.upper(); KeyError when that is not a key. */
  function DecodeTriplet(table: map<char, string>, t: string): (r: Result<char>)
    requires IsCodec(table)
    ensures r.Ok? <==> Upper(t) in table.Values
    ensures r.Ok? ==> r.value in table && table[r.value] == Upper(t)
    ensures r.Err? ==> r.error == UnknownTriplet(Upper(t))
  {
    var key := Upper(t);
    var reverse := DecodingTable(table);
    if key in reverse then Ok(reverse[key]) else Err(UnknownTriplet(key))
  }

  /** encode_char is case-insensitive. */
  lemma EncodeCharIgnoresCase(table: map<char, string>, c: char)
    requires IsCodec(table)
    ensures EncodeChar(table, c) == EncodeChar(table, UpperChar(c))
  {
  }

  /** Decoding the codon of a supported character gives that character upper-cased. */
  lemma EncodeCharRoundTrip(table: map<char, string>, c: char)
    requires IsCodec(table) && IsSupported(table, c)
    ensures DecodeTriplet(table, EncodeChar(table, c).value) == Ok(UpperChar(c))
  {
    CodonIsUpperCase(EncodeChar(table, c).value);
  }

  /** Re-encoding a decoded character gives back the upper-cased triplet. */
  lemma DecodeTripletRoundTrip(table: map<char, string>, t: string)
    requires IsCodec(table) && DecodeTriplet(table, t).Ok?
    ensures EncodeChar(table, DecodeTriplet(table, t).value) == Ok(Upper(t))
  {
  }

  /** decode_triplet is case-insensitive. */
  lemma DecodeTripletIgnoresCase(table: map<char, string>, t: string)
    requires IsCodec(table)
    ensures DecodeTriplet(table, t) == DecodeTriplet(table, Upper(t))
  {
    assert Upper(Upper(t)) == Upper(t);
  }

  /** With ENCODING_TABLE, decode_triplet agrees with the reference decoding written
      out codon by codon. */
  lemma DecodeTripletMatchesReference(t: string)
    requires IsCodec(EncodingTable) && DecodeTriplet(EncodingTable, t).Ok?
    ensures TripletChar(Upper(t)) == Some(DecodeTriplet(EncodingTable, t).value)
  {
    EncodingTableLeftInverse();
  }

  /** is_valid_triplet: triplet.upper() is a key of DECODING_TABLE. */
  function IsValidTriplet(table: map<char, string>, t: string): (r: bool)
    requires IsCodec(table)
    ensures r <==> DecodeTriplet(table, t).Ok?
    ensures r ==> IsCodon(Upper(t)) && Upper(t) !in StartCodons
  {
    Upper(t) in DecodingTable(table)
  }

  /** get_all_valid_triplets: the codons of the table, one per character. */
  function AllValidTriplets(table: map<char, string>): (r: set<string>)
    requires IsCodec(table)
    ensures |r| == |table|
    ensures forall t | t in r :: IsValidTriplet(table, t) && IsCodon(t) && t !in StartCodons
    ensures forall c | c in table :: table[c] in r
  {
    InjectiveValuesCard(table);
    var r := DecodingTable(table).Keys;
    assert forall t | t in r :: Upper(t) == t by {
      forall t | t in r
        ensures Upper(t) == t
      {
        CodonIsUpperCase(t);
      }
    }
    r
  }

  /** With ENCODING_TABLE there are 49 valid triplets. */
  lemma AllValidTripletsCount()
    ensures IsCodec(EncodingTable) && |AllValidTriplets(EncodingTable)| == 49
  {
    EncodingTableIsCodec();
    EncodingTableSize();
  }

  /** The triplet starting at index 3 * i. */
  function TripletAt(s: string, i: nat): string
    requires 3 * i + 3 <= |s|
  {
    s[3 * i..3 * i + 3]
  }

  /** Prefixing one triplet shifts the triplet indices by one. */
  lemma TripletsAfterPrefix(t: string, rest: string)
    requires |t| == 3 && |rest| % 3 == 0
    ensures TripletAt(t + rest, 0) == t
    ensures forall i :: 1 <= i <= |rest| / 3 ==> TripletAt(t + rest, i) == TripletAt(rest, i - 1)
    ensures forall i :: 0 <= i < |rest| / 3 ==> TripletAt(rest, i) == TripletAt(t + rest, i + 1)
  {
  }

  /** s[i] is the first character of s that the table cannot encode. */
  predicate FirstUnsupported(table: map<char, string>, s: string, i: nat)
  {
    i < |s| && !IsSupported(table, s[i]) && forall j :: 0 <= j < i ==> IsSupported(table, s[j])
  }

  /** encode_text: the codons of the characters, left to right; it raises when a
      character is unsupported (which one: EncodeTextReportsFirstUnsupported). */
  function EncodeText(table: map<char, string>, s: string): (r: Result<string>)
    requires IsCodec(table)
    ensures r.Ok? <==> forall i :: 0 <= i < |s| ==> IsSupported(table, s[i])
    ensures r.Ok? ==> |r.value| == 3 * |s|
    ensures r.Ok? ==> forall i :: 0 <= i < |s| ==> TripletAt(r.value, i) == EncodeChar(table, s[i]).value
  {
    if s == [] then Ok([])
    else
      var head := EncodeChar(table, s[0]);
      if head.Err? then Err(head.error)
      else
        var tail := EncodeText(table, s[1..]);
        if tail.Err? then Err(tail.error)
        else
          TripletsAfterPrefix(head.value, tail.value);
          Ok(head.value + tail.value)
  }

  /** The KeyError that encode_text raises names the first unsupported character. */
  lemma {:induction false} EncodeTextReportsFirstUnsupported(table: map<char, string>, s: string)
    requires IsCodec(table) && EncodeText(table, s).Err?
    ensures exists i :: 0 <= i < |s| && FirstUnsupported(table, s, i)
                          && EncodeText(table, s).error == UnsupportedCharacter(UpperChar(s[i]))
    decreases |s|
  {
    if IsSupported(table, s[0]) {
      EncodeTextReportsFirstUnsupported(table, s[1..]);
      var i :| 0 <= i < |s[1..]| && FirstUnsupported(table, s[1..], i)
               && EncodeText(table, s[1..]).error == UnsupportedCharacter(UpperChar(s[1..][i]));
      assert FirstUnsupported(table, s, i + 1);
    } else {
      assert FirstUnsupported(table, s, 0);
    }
  }

  /** The decoding of a string whose length is a multiple of three, triplet by triplet. */
  function DecodeTriplets(table: map<char, string>, dna: string): (r: Result<string>)
    requires IsCodec(table) && |dna| % 3 == 0
    ensures r.Ok? <==> forall i :: 0 <= i < |dna| / 3 ==> IsValidTriplet(table, TripletAt(dna, i))
    ensures r.Ok? ==> |r.value| == |dna| / 3
    ensures r.Ok? ==> forall i :: 0 <= i < |dna| / 3 ==> DecodeTriplet(table, TripletAt(dna, i)) == Ok(r.value[i])
    decreases |dna|
  {
    if dna == [] then Ok([])
    else
      var head := DecodeTriplet(table, dna[..3]);
      var tail := DecodeTriplets(table, dna[3..]);
      DecodeTripletsStep(table, dna, head, tail);
      if head.Err? then Err(head.error)
      else if tail.Err? then Err(tail.error)
      else Ok([head.value] + tail.value)
  }

  /** One step of DecodeTriplets: the first triplet's decoding in front of the decoding
      of the rest is the decoding of the whole. */
  lemma DecodeTripletsStep(table: map<char, string>, dna: string, head: Result<char>, tail: Result<string>)
    requires IsCodec(table) && |dna| % 3 == 0 && |dna| >= 3
    requires head == DecodeTriplet(table, dna[..3])
    requires tail.Ok? <==> forall i :: 0 <= i < |dna[3..]| / 3 ==> IsValidTriplet(table, TripletAt(dna[3..], i))
    requires tail.Ok? ==> |tail.value| == |dna[3..]| / 3
    requires tail.Ok? ==> forall i :: 0 <= i < |dna[3..]| / 3 ==> DecodeTriplet(table, TripletAt(dna[3..], i)) == Ok(tail.value[i])
    ensures head.Ok? && tail.Ok? <==> forall i :: 0 <= i < |dna| / 3 ==> IsValidTriplet(table, TripletAt(dna, i))
    ensures head.Ok? && tail.Ok? ==>
      forall i :: 0 <= i < |dna| / 3 ==> DecodeTriplet(table, TripletAt(dna, i)) == Ok(([head.value] + tail.value)[i])
  {
    var rest := dna[3..];
    assert |rest| / 3 == |dna| / 3 - 1;
    if head.Err? {
      assert TripletAt(dna, 0) == dna[..3];
      assert !IsValidTriplet(table, TripletAt(dna, 0));
    } else if tail.Err? {
      var j :| 0 <= j < |rest| / 3 && !IsValidTriplet(table, TripletAt(rest, j));
      TripletOfRest(dna, j);
      assert !IsValidTriplet(table, TripletAt(dna, j + 1));
    } else {
      var r := [head.value] + tail.value;
      forall i | 0 <= i < |dna| / 3
        ensures IsValidTriplet(table, TripletAt(dna, i))
        ensures DecodeTriplet(table, TripletAt(dna, i)) == Ok(r[i])
      {
        if i > 0 {
          TripletOfRest(dna, i - 1);
          assert r[i] == tail.value[i - 1];
        } else {
          assert TripletAt(dna, 0) == dna[..3];
        }
      }
    }
  }

  /** Triplet j of the rest after the first triplet is triplet j + 1 of the whole. */
  lemma TripletOfRest(dna: string, j: nat)
    requires 3 * j + 6 <= |dna|
    ensures TripletAt(dna[3..], j) == TripletAt(dna, j + 1)
  {
  }

  /** decode_dna: ValueError unless the length is a multiple of three, then the
      characters of the triplets in order; the first unknown triplet raises. */
  function DecodeDna(table: map<char, string>, dna: string): (r: Result<string>)
    requires IsCodec(table)
    ensures |dna| % 3 != 0 ==> r == Err(LengthNotMultipleOf3(|dna|))
    ensures r.Ok? <==> |dna| % 3 == 0 && forall i :: 0 <= i < |dna| / 3 ==> IsValidTriplet(table, TripletAt(dna, i))
    ensures r.Ok? ==> |r.value| == |dna| / 3
    ensures r.Ok? ==> forall i :: 0 <= i < |dna| / 3 ==> DecodeTriplet(table, TripletAt(dna, i)) == Ok(r.value[i])
  {
    if |dna| % 3 != 0 then Err(LengthNotMultipleOf3(|dna|)) else DecodeTriplets(table, dna)
  }

  /** Round trip: decoding the encoding of supported text gives the text upper-cased. */
  lemma DecodeEncodeRoundTrip(table: map<char, string>, s: string)
    requires IsCodec(table) && EncodeText(table, s).Ok?
    ensures DecodeDna(table, EncodeText(table, s).value) == Ok(Upper(s))
  {
    var e := EncodeText(table, s).value;
    assert |e| == 3 * |s| && |e| % 3 == 0 && |e| / 3 == |s|;
    forall i | 0 <= i < |s|
      ensures IsValidTriplet(table, TripletAt(e, i))
      ensures DecodeTriplet(table, TripletAt(e, i)) == Ok(UpperChar(s[i]))
    {
      EncodeCharRoundTrip(table, s[i]);
    }
    var r := DecodeDna(table, e);
    assert r.Ok?;
    var u := Upper(s);
    assert |r.value| == |u|;
    forall i | 0 <= i < |s|
      ensures r.value[i] == u[i]
    {
      assert DecodeTriplet(table, TripletAt(e, i)) == Ok(r.value[i]);
    }
    assert r.value == u;
  }

  /** Round trip the other way: re-encoding decoded DNA gives the DNA upper-cased. */
  lemma {:induction false} EncodeDecodeRoundTrip(table: map<char, string>, dna: string)
    requires IsCodec(table) && DecodeDna(table, dna).Ok?
    ensures EncodeText(table, DecodeDna(table, dna).value) == Ok(Upper(dna))
    decreases |dna|
  {
    if dna != [] {
      var head := DecodeTriplet(table, dna[..3]);
      var tail := DecodeTriplets(table, dna[3..]);
      assert head.Ok? && tail.Ok?;
      var d := DecodeDna(table, dna).value;
      assert d == [head.value] + tail.value;
      assert d[0] == head.value && d[1..] == tail.value;
      DecodeTripletRoundTrip(table, dna[..3]);
      EncodeDecodeRoundTrip(table, dna[3..]);
      assert EncodeText(table, d).value == Upper(dna[..3]) + Upper(dna[3..]);
      assert dna == dna[..3] + dna[3..];
      UpperDistributes(dna[..3], dna[3..]);
    }
  }

  lemma UpperDistributes(a: string, b: string)
    ensures Upper(a + b) == Upper(a) + Upper(b)
  {
  }

  /** Triplet i of dna is the first one that does not decode. */
  predicate FirstInvalidTriplet(table: map<char, string>, dna: string, i: nat)
    requires IsCodec(table)
  {
    3 * i + 3 <= |dna| && !IsValidTriplet(table, TripletAt(dna, i))
    && forall j :: 0 <= j < i ==> IsValidTriplet(table, TripletAt(dna, j))
  }

  /** The KeyError of the triplet-by-triplet decoding names the first unknown triplet,
      upper-cased. */
  lemma {:induction false} DecodeTripletsReportsFirstUnknown(table: map<char, string>, dna: string, i: nat)
    requires IsCodec(table) && |dna| % 3 == 0 && FirstInvalidTriplet(table, dna, i)
    ensures DecodeTriplets(table, dna) == Err(UnknownTriplet(Upper(TripletAt(dna, i))))
    decreases |dna|
  {
    TripletsAfterPrefix(dna[..3], dna[3..]);
    assert dna == dna[..3] + dna[3..];
    if i > 0 {
      assert IsValidTriplet(table, TripletAt(dna, 0));
      forall j | 0 <= j < i - 1
        ensures IsValidTriplet(table, TripletAt(dna[3..], j))
      {
        assert TripletAt(dna[3..], j) == TripletAt(dna, j + 1);
      }
      assert TripletAt(dna[3..], i - 1) == TripletAt(dna, i);
      DecodeTripletsReportsFirstUnknown(table, dna[3..], i - 1);
    }
  }

  /** The KeyError that decode_dna raises for a length that is a multiple of three
      names the first triplet the table does not know, upper-cased. */
  lemma DecodeDnaReportsFirstUnknown(table: map<char, string>, dna: string, i: nat)
    requires IsCodec(table) && |dna| % 3 == 0 && FirstInvalidTriplet(table, dna, i)
    ensures DecodeDna(table, dna) == Err(UnknownTriplet(Upper(TripletAt(dna, i))))
  {
    DecodeTripletsReportsFirstUnknown(table, dna, i);
  }
}
