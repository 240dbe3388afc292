/** The bit-level watermark of dna_watermark/core.py: text to an 8-bit-per-character
    binary string and back, and embedding those bits as marker bases after the
    bases of a DNA sequence. */
module Core {
  import opened Common

  predicate IsBit(c: char)
  {
    c == '0' || c == '1'
  }

  predicate AllBits(s: string)
  {
    forall i :: 0 <= i < |s| ==> IsBit(s[i])
  }

  predicate IsDna(s: string)
  {
    forall i :: 0 <= i < |s| ==> s[i] in "ACGT"
  }

  function Pow2(n: nat): (r: nat)
    ensures r >= 1
  {
    if n == 0 then 1 else 2 * Pow2(n - 1)
  }

  function BitChar(b: nat): (c: char)
    requires b < 2
    ensures IsBit(c)
  {
    if b == 0 then '0' else '1'
  }

  /** int(s, 2) for a string of binary digits, most significant first. */
  function BitsValue(s: string): (v: nat)
    requires AllBits(s)
  {
    if s == [] then 0 else 2 * BitsValue(s[..|s| - 1]) + (if s[|s| - 1] == '1' then 1 else 0)
  }

  /** The w lowest binary digits of n, most significant first. */
  function FixedBits(n: nat, w: nat): (r: string)
    ensures |r| == w && AllBits(r)
  {
    if w == 0 then [] else FixedBits(n / 2, w - 1) + [BitChar(n % 2)]
  }

  /** The binary digits of n without leading zeros ("0" for zero). */
  function BinaryDigits(n: nat): (r: string)
    ensures |r| >= 1 && AllBits(r)
  {
    if n < 2 then [BitChar(n)] else BinaryDigits(n / 2) + [BitChar(n % 2)]
  }

  lemma {:induction false} BitsValueBound(s: string)
    requires AllBits(s)
    ensures BitsValue(s) < Pow2(|s|)
    decreases |s|
  {
    if s != [] {
      BitsValueBound(s[..|s| - 1]);
    }
  }

  lemma {:induction false} FixedBitsValue(n: nat, w: nat)
    requires n < Pow2(w)
    ensures BitsValue(FixedBits(n, w)) == n
    decreases w
  {
    if w > 0 {
      FixedBitsValue(n / 2, w - 1);
      var r := FixedBits(n, w);
      assert r[..|r| - 1] == FixedBits(n / 2, w - 1);
    }
  }

  lemma {:induction false} BinaryDigitsValue(n: nat)
    ensures BitsValue(BinaryDigits(n)) == n
    decreases n
  {
    if n >= 2 {
      BinaryDigitsValue(n / 2);
      var r := BinaryDigits(n);
      assert r[..|r| - 1] == BinaryDigits(n / 2);
    }
  }

  lemma {:induction false} BinaryDigitsLength(n: nat, k: nat)
    requires n >= Pow2(k)
    ensures |BinaryDigits(n)| > k
    decreases k
  {
    if k > 0 {
      BinaryDigitsLength(n / 2, k - 1);
    }
  }

  /** Reading w digits and writing them back with w digits gives the same digits. */
  lemma {:induction false} FixedBitsOfValue(s: string)
    requires AllBits(s)
    ensures FixedBits(BitsValue(s), |s|) == s
    decreases |s|
  {
    if s != [] {
      var init := s[..|s| - 1];
      var b := if s[|s| - 1] == '1' then 1 else 0;
      var v := BitsValue(s);
      assert v == 2 * BitsValue(init) + b;
      assert v / 2 == BitsValue(init) && v % 2 == b;
      FixedBitsOfValue(init);
      assert FixedBits(v, |s|) == init + [BitChar(b)];
      assert s == init + [s[|s| - 1]];
    }
  }

  /** format(n, '08b'): the binary digits of n, zero-padded on the left to eight;
      a value of 256 or more keeps all of its digits, so it takes more than eight. */
  function Format08b(n: nat): (r: string)
    ensures AllBits(r) && |r| >= 8
    ensures |r| == 8 <==> n < 256
    ensures BitsValue(r) == n
  {
    if n < 256 then
      FixedBitsValue(n, 8);
      FixedBits(n, 8)
    else
      BinaryDigitsLength(n, 8);
      BinaryDigitsValue(n);
      BinaryDigits(n)
  }

  /** Every character has a code point below 256, so it takes exactly eight bits. */
  predicate IsByteText(t: string)
  {
    forall i :: 0 <= i < |t| ==> (t[i] as int) < 256
  }

  /** The eight bits starting at index 8 * i. */
  function ByteAt(s: string, i: nat): string
    requires 8 * i + 8 <= |s|
  {
    s[8 * i..8 * i + 8]
  }

  /** Prefixing one byte shifts the byte indices by one. */
  lemma BytesAfterPrefix(g: string, rest: string)
    requires |g| == 8 && |rest| % 8 == 0
    ensures ByteAt(g + rest, 0) == g
    ensures forall i :: 1 <= i <= |rest| / 8 ==> ByteAt(g + rest, i) == ByteAt(rest, i - 1)
    ensures forall i :: 0 <= i < |rest| / 8 ==> ByteAt(rest, i) == ByteAt(g + rest, i + 1)
  {
  }

  /** text_to_binary: format(ord(c), '08b') for each character, concatenated. */
  function TextToBinary(t: string): (r: string)
    ensures AllBits(r)
  {
    if t == [] then [] else Format08b(t[0] as int) + TextToBinary(t[1..])
  }

  /** On text whose code points are below 256, text_to_binary writes one byte per
      character, holding that character's code. */
  lemma {:induction false} TextToBinaryBytes(t: string)
    requires IsByteText(t)
    ensures |TextToBinary(t)| == 8 * |t|
    ensures forall i :: 0 <= i < |t| ==> BitsValue(ByteAt(TextToBinary(t), i)) == t[i] as int
    decreases |t|
  {
    if t != [] {
      assert IsByteText(t[1..]);
      TextToBinaryBytes(t[1..]);
      BytesAfterPrefix(Format08b(t[0] as int), TextToBinary(t[1..]));
    }
  }

  /** The number of '0's binary_to_text appends to reach a multiple of eight. */
  function PadLength(n: nat): (k: nat)
    ensures k < 8 && (n + k) % 8 == 0
  {
    (8 - n % 8) % 8
  }

  function Zeros(n: nat): (r: string)
    ensures |r| == n && AllBits(r)
    ensures forall i :: 0 <= i < n ==> r[i] == '0'
  {
    seq(n, i => '0')
  }

  function Padded(b: string): (p: string)
    ensures |p| % 8 == 0 && |p| == |b| + PadLength(|b|)
    ensures p[..|b|] == b
    ensures forall i :: |b| <= i < |p| ==> p[i] == '0'
  {
    b + Zeros(PadLength(|b|))
  }

  /** Padding adds only '0's, so it neither creates nor removes a non-bit. */
  lemma PaddedBits(b: string)
    ensures AllBits(Padded(b)) <==> AllBits(b)
  {
    var p := Padded(b);
    assert forall i :: 0 <= i < |b| ==> p[i] == b[i];
    assert forall i :: |b| <= i < |p| ==> p[i] == '0';
  }

  /** The characters of consecutive bytes of a binary string. */
  function DecodeBytes(p: string): (r: string)
    requires AllBits(p) && |p| % 8 == 0
    ensures |r| == |p| / 8
    ensures IsByteText(r)
    ensures forall i :: 0 <= i < |r| ==> r[i] as int == BitsValue(ByteAt(p, i))
    decreases |p|
  {
    if p == [] then []
    else
      BytesAfterPrefix(p[..8], p[8..]);
      assert p == p[..8] + p[8..];
      BitsValueBound(p[..8]);
      assert Pow2(8) == 256;
      [BitsValue(p[..8]) as char] + DecodeBytes(p[8..])
  }

  /** binary_to_text: "" for "", otherwise the string is padded with '0's to a
      multiple of eight and each byte becomes the character with that code; a
      character other than '0' or '1' makes int() raise ValueError, answered by "". */
  function BinaryToText(b: string): (r: string)
    ensures b == [] ==> r == []
    ensures !AllBits(b) ==> r == []
    ensures AllBits(b) ==> |r| == (|b| + 7) / 8
    ensures AllBits(b) ==> forall i :: 0 <= i < |r| ==> r[i] as int == BitsValue(ByteAt(Padded(b), i))
  {
    if b == [] then []
    else
      var p := Padded(b);
      PaddedBits(b);
      if !AllBits(p) then [] else DecodeBytes(p)
  }

  /** Bytes written with eight digits read back as the same characters. */
  lemma {:induction false} DecodeBytesOfBinary(t: string)
    requires IsByteText(t)
    ensures |TextToBinary(t)| == 8 * |t|
    ensures DecodeBytes(TextToBinary(t)) == t
  {
    TextToBinaryBytes(t);
    var r := DecodeBytes(TextToBinary(t));
    assert forall i :: 0 <= i < |t| ==> r[i] as int == t[i] as int;
  }

  /** binary_to_text undoes text_to_binary on text whose code points are below 256. */
  lemma TextToBinaryRoundTrip(t: string)
    requires IsByteText(t)
    ensures BinaryToText(TextToBinary(t)) == t
  {
    var b := TextToBinary(t);
    DecodeBytesOfBinary(t);
    if b != [] {
      PaddedWholeBytes(b);
      BinaryToTextOfWholeBytes(b);
    }
  }

  /** A whole number of bytes needs no padding. */
  lemma PaddedWholeBytes(b: string)
    requires |b| % 8 == 0
    ensures Padded(b) == b
  {
    assert Zeros(0) == [];
  }

  /** On a whole number of bytes, binary_to_text decodes them as they are. */
  lemma BinaryToTextOfWholeBytes(b: string)
    requires AllBits(b) && |b| % 8 == 0 && b != [] && Padded(b) == b
    ensures BinaryToText(b) == DecodeBytes(b)
  {
  }

  /** text_to_binary undoes binary_to_text on binary strings, up to the zero padding. */
  lemma {:induction false} DecodeBytesRoundTrip(p: string)
    requires AllBits(p) && |p| % 8 == 0
    ensures TextToBinary(DecodeBytes(p)) == p
    decreases |p|
  {
    if p != [] {
      BitsValueBound(p[..8]);
      assert Pow2(8) == 256;
      var c := BitsValue(p[..8]) as char;
      var rest := DecodeBytes(p[8..]);
      assert DecodeBytes(p) == [c] + rest;
      assert ([c] + rest)[1..] == rest;
      FixedBitsOfValue(p[..8]);
      DecodeBytesRoundTrip(p[8..]);
      assert p == p[..8] + p[8..];
    }
  }

  lemma BinaryToTextRoundTrip(b: string)
    requires AllBits(b)
    ensures TextToBinary(BinaryToText(b)) == Padded(b)
  {
    if b == [] {
      assert Padded(b) == [];
    } else {
      DecodeBytesRoundTrip(Padded(b));
    }
  }

  /** The marker base for a bit: 'A' for '0', 'T' for anything else. */
  function Mark(bit: char): (m: char)
    ensures m == 'A' || m == 'T'
  {
    if bit == '0' then 'A' else 'T'
  }

  /** The bits left over once the sequence is used up: each as a 'G' filler base and its mark. */
  function Padding(bits: string): (r: string)
    ensures |r| == 2 * |bits|
  {
    if bits == [] then [] else ['G', Mark(bits[0])] + Padding(bits[1..])
  }

  /** What embed_watermark builds: every base of the sequence followed by the mark of
      the next bit while bits remain, then filler pairs for the bits still left. */
  function Interleaved(s: string, bits: string): string
  {
    if s == [] then Padding(bits)
    else if bits == [] then s
    else [s[0], Mark(bits[0])] + Interleaved(s[1..], bits[1..])
  }

  /** One step of the embedding loop at base i and bit k: the base, then the mark of
      bit k if there is one. */
  lemma InterleavedStep(s: string, bits: string, i: nat, k: nat)
    requires i < |s| && k <= |bits|
    ensures k == |bits| ==> Interleaved(s[i..], bits[k..]) == [s[i]] + Interleaved(s[i + 1..], bits[k..])
    ensures k < |bits| ==> Interleaved(s[i..], bits[k..]) == [s[i], Mark(bits[k])] + Interleaved(s[i + 1..], bits[k + 1..])
  {
    assert s[i..][0] == s[i] && s[i..][1..] == s[i + 1..];
    if k == |bits| {
      assert Interleaved(s[i + 1..], bits[k..]) == s[i + 1..];
    } else {
      assert bits[k..][0] == bits[k] && bits[k..][1..] == bits[k + 1..];
    }
  }

  lemma PaddingStep(bits: string)
    requires bits != []
    ensures Padding(bits) == ['G', Mark(bits[0])] + Padding(bits[1..])
  {
  }

  /** The second loop of embed_watermark: a 'G' filler base and the mark for each bit
      from index start on. */
  method AppendFillerPairs(binary: string, start: nat, prefix: string) returns (r: string)
    requires start <= |binary|
    ensures r == prefix + Padding(binary[start..])
  {
    var result := prefix;
    var bi := start;
    while bi < |binary|
      invariant start <= bi <= |binary|
      invariant result + Padding(binary[bi..]) == prefix + Padding(binary[start..])
    {
      PaddingStep(binary[bi..]);
      assert binary[bi..][0] == binary[bi] && binary[bi..][1..] == binary[bi + 1..];
      result := result + ['G', Mark(binary[bi])];
      bi := bi + 1;
    }
    assert binary[bi..] == [];
    r := result;
  }

  /** The two loops of embed_watermark over a given binary string: each base of the
      sequence, followed by the mark of the next bit while bits remain, then the
      filler pairs. */
  method InterleaveBits(sequence: string, binary: string) returns (r: string)
    ensures r == Interleaved(sequence, binary)
  {
    var result: string := [];
    var bi := 0;
    for i := 0 to |sequence|
      invariant bi == Min(i, |binary|)
      invariant result + Interleaved(sequence[i..], binary[bi..]) == Interleaved(sequence, binary)
    {
      InterleavedStep(sequence, binary, i, bi);
      result := result + [sequence[i]];
      if bi < |binary| {
        result := result + [Mark(binary[bi])];
        bi := bi + 1;
      }
    }
    assert sequence[|sequence|..] == [];
    r := AppendFillerPairs(binary, bi, result);
  }

  /** embed_watermark: the bits of the watermark text, one marker base per bit. */
  method EmbedWatermark(sequence: string, watermark: string) returns (r: string)
    ensures r == Interleaved(sequence, TextToBinary(watermark))
  {
    var binary := TextToBinary(watermark);
    r := InterleaveBits(sequence, binary);
  }

  /** The bit an extracted marker base stands for: 'A' is 0, 'T' is 1, any other base
      carries no bit. */
  function MarkBit(m: char): (r: string)
    ensures |r| <= 1
  {
    if m == 'A' then "0" else if m == 'T' then "1" else ""
  }

  /** The bits read from the bases at odd positions (sequence[1], sequence[3], ...). */
  function MarkBits(s: string): (r: string)
    ensures AllBits(r)
  {
    if |s| < 2 then [] else MarkBit(s[1]) + MarkBits(s[2..])
  }

  lemma {:induction false} MarkBitsAppend(a: string, b: string)
    requires |a| % 2 == 0
    ensures MarkBits(a + b) == MarkBits(a) + MarkBits(b)
    decreases |a|
  {
    if a != [] {
      assert (a + b)[1] == a[1];
      assert (a + b)[2..] == a[2..] + b;
      MarkBitsAppend(a[2..], b);
      calc {
        MarkBits(a + b);
        MarkBit(a[1]) + MarkBits(a[2..] + b);
        MarkBit(a[1]) + (MarkBits(a[2..]) + MarkBits(b));
        (MarkBit(a[1]) + MarkBits(a[2..])) + MarkBits(b);
        MarkBits(a) + MarkBits(b);
      }
    } else {
      assert a + b == b;
    }
  }

  /** A trailing base without a partner carries no bit. */
  lemma MarkBitsOddLength(s: string)
    requires |s| % 2 == 1
    ensures MarkBits(s) == MarkBits(s[..|s| - 1])
  {
    assert s == s[..|s| - 1] + [s[|s| - 1]];
    MarkBitsAppend(s[..|s| - 1], [s[|s| - 1]]);
  }

  /** The loop of extract_watermark: the bits of the marker bases at odd positions,
      skipping any base other than 'A' or 'T'. */
  method ReadMarks(sequence: string) returns (binary: string)
    ensures binary == MarkBits(sequence)
  {
    binary := "";
    var i := 1;
    while i < |sequence|
      invariant 1 <= i <= |sequence| + 1
      invariant binary + MarkBits(sequence[i - 1..]) == MarkBits(sequence)
    {
      var mark := sequence[i];
      assert sequence[i - 1..][1] == mark && sequence[i - 1..][2..] == sequence[i + 1..];
      assert MarkBits(sequence[i - 1..]) == MarkBit(mark) + MarkBits(sequence[i + 1..]);
      if mark == 'A' || mark == 'T' {
        binary := binary + (if mark == 'A' then "0" else "1");
      }
      i := i + 2;
    }
    assert binary + [] == binary;
  }

  /** extract_watermark: the text of the bits carried by the odd positions. */
  method ExtractWatermark(sequence: string) returns (text: string)
    ensures text == BinaryToText(MarkBits(sequence))
  {
    var binary := ReadMarks(sequence);
    text := BinaryToText(binary);
  }

  /** Filler pairs carry exactly the bits they were made from. */
  lemma {:induction false} MarkBitsOfPadding(bits: string)
    requires AllBits(bits)
    ensures MarkBits(Padding(bits)) == bits
    decreases |bits|
  {
    if bits != [] {
      MarkBitsOfPadding(bits[1..]);
      assert (['G', Mark(bits[0])] + Padding(bits[1..]))[2..] == Padding(bits[1..]);
    }
  }

  /** What extraction reads back from an embedded sequence: all the embedded bits,
      followed by whatever the odd positions of the unmarked rest of the sequence say. */
  lemma {:induction false} MarkBitsOfInterleaved(s: string, bits: string)
    requires AllBits(bits)
    ensures MarkBits(Interleaved(s, bits)) == bits + MarkBits(s[Min(|bits|, |s|)..])
    decreases |s|
  {
    if s == [] {
      MarkBitsOfPadding(bits);
      assert bits + [] == bits;
    } else if bits == [] {
      assert s[0..] == s;
    } else {
      var rest := Interleaved(s[1..], bits[1..]);
      var tail := MarkBits(s[Min(|bits|, |s|)..]);
      MarkBitsOfInterleaved(s[1..], bits[1..]);
      LeftoverShift(s, |bits|);
      assert Interleaved(s, bits) == [s[0], Mark(bits[0])] + rest;
      MarkBitsOfPair(s[0], bits[0], rest);
      ConsTail(bits, tail);
    }
  }

  /** Dropping the first base shifts the unmarked rest by one. */
  lemma LeftoverShift(s: string, n: nat)
    requires s != [] && n > 0
    ensures s[1..][Min(n - 1, |s| - 1)..] == s[Min(n, |s|)..]
  {
  }

  /** Re-attaching the first bit. */
  lemma ConsTail(bits: string, tail: string)
    requires bits != []
    ensures [bits[0]] + (bits[1..] + tail) == bits + tail
  {
    assert bits == [bits[0]] + bits[1..];
  }

  /** A base followed by a marker base reads back as the marker's bit. */
  lemma MarkBitsOfPair(base: char, bit: char, rest: string)
    requires IsBit(bit)
    ensures MarkBits([base, Mark(bit)] + rest) == [bit] + MarkBits(rest)
  {
    var r := [base, Mark(bit)] + rest;
    assert r[1] == Mark(bit) && r[2..] == rest;
  }

  /** Round trip: the watermark comes back out when the sequence has at most one base
      more than there are bits to embed, and every character fits in eight bits. */
  lemma EmbedExtractRoundTrip(s: string, watermark: string)
    requires IsByteText(watermark) && |s| <= 8 * |watermark| + 1
    ensures BinaryToText(MarkBits(Interleaved(s, TextToBinary(watermark)))) == watermark
  {
    var bits := TextToBinary(watermark);
    MarkBitsOfInterleaved(s, bits);
    TextToBinaryBytes(watermark);
    assert |s[Min(|bits|, |s|)..]| <= 1;
    assert bits + [] == bits;
    assert MarkBits(Interleaved(s, bits)) == bits;
    TextToBinaryRoundTrip(watermark);
  }

  /** The exact condition for the round trip: the watermark comes back out if and only
      if the bases of the sequence left unmarked carry no bit at their odd offsets
      (no 'A' or 'T' there). Any bit they carry adds at least one character. */
  lemma EmbedExtractRoundTripExactly(s: string, watermark: string)
    requires IsByteText(watermark)
    ensures var bits := TextToBinary(watermark);
      BinaryToText(MarkBits(Interleaved(s, bits))) == watermark <==> MarkBits(s[Min(|bits|, |s|)..]) == []
  {
    var bits := TextToBinary(watermark);
    var tail := MarkBits(s[Min(|bits|, |s|)..]);
    MarkBitsOfInterleaved(s, bits);
    TextToBinaryBytes(watermark);
    if tail == [] {
      assert bits + tail == bits;
      TextToBinaryRoundTrip(watermark);
    } else {
      var read := bits + tail;
      assert AllBits(read);
      assert |read| >= 8 * |watermark| + 1;
      assert |BinaryToText(read)| >= |watermark| + 1;
    }
  }

  /** A longer sequence leaks its own bases into the extracted bits: an empty
      watermark embedded in "AA" extracts as one NUL character. */
  lemma LongSequenceAddsNoise()
    ensures Interleaved("AA", TextToBinary("")) == "AA"
    ensures BinaryToText(MarkBits("AA")) == "\0"
  {
    assert MarkBits("AA") == "0";
    var p := Padded("0");
    assert forall i :: 0 <= i < |p| ==> p[i] == '0';
    ZerosValue(p);
    assert ByteAt(p, 0) == p;
  }

  lemma {:induction false} ZerosValue(s: string)
    requires forall i :: 0 <= i < |s| ==> s[i] == '0'
    ensures AllBits(s) && BitsValue(s) == 0
    decreases |s|
  {
    if s != [] {
      ZerosValue(s[..|s| - 1]);
    }
  }

  /** Embedding only adds the bases A, T and G, so DNA stays DNA. */
  lemma {:induction false} InterleavedIsDna(s: string, bits: string)
    requires IsDna(s)
    ensures IsDna(Interleaved(s, bits))
    decreases |s| + |bits|
  {
    if s == [] {
      PaddingIsDna(bits);
    } else if bits != [] {
      InterleavedIsDna(s[1..], bits[1..]);
    }
  }

  lemma {:induction false} PaddingIsDna(bits: string)
    ensures IsDna(Padding(bits))
    decreases |bits|
  {
    if bits != [] {
      PaddingIsDna(bits[1..]);
    }
  }

  /** The layout of an embedded sequence: each bit adds one base, or two where the
      sequence has run out; base i sits at 2 * i while bits remain, the bases past
      the last bit follow unmarked, a 'G' filler sits at 2 * i for every bit i past
      the end of the sequence, and the mark of bit i sits at 2 * i + 1. */
  lemma {:induction false} InterleavedLayout(s: string, bits: string)
    ensures |Interleaved(s, bits)| == if |bits| <= |s| then |s| + |bits| else 2 * |bits|
    ensures forall i :: 0 <= i < |s| && i < |bits| ==> Interleaved(s, bits)[2 * i] == s[i]
    ensures forall i :: |bits| <= i < |s| ==> Interleaved(s, bits)[|bits| + i] == s[i]
    ensures forall i :: |s| <= i < |bits| ==> Interleaved(s, bits)[2 * i] == 'G'
    ensures forall i :: 0 <= i < |bits| ==> Interleaved(s, bits)[2 * i + 1] == Mark(bits[i])
    decreases |s|
  {
    if s != [] && bits != [] {
      InterleavedLayout(s[1..], bits[1..]);
      var r := Interleaved(s, bits);
      var r' := Interleaved(s[1..], bits[1..]);
      assert r == [s[0], Mark(bits[0])] + r';
      forall i | 1 <= i < |s| && i < |bits|
        ensures r[2 * i] == s[i]
      {
        assert r[2 * i] == r'[2 * (i - 1)] && s[i] == s[1..][i - 1];
      }
      forall i | |bits| <= i < |s|
        ensures r[|bits| + i] == s[i]
      {
        assert r[|bits| + i] == r'[|bits[1..]| + (i - 1)] && s[i] == s[1..][i - 1];
      }
      forall i | 1 <= i < |bits|
        ensures r[2 * i + 1] == Mark(bits[i])
      {
        assert r[2 * i + 1] == r'[2 * (i - 1) + 1] && bits[i] == bits[1..][i - 1];
      }
      forall i | |s| <= i < |bits|
        ensures r[2 * i] == 'G'
      {
        assert r[2 * i] == r'[2 * (i - 1)];
      }
    } else if s == [] {
      PaddingMarks(bits);
    }
  }

  /** In the filler, pair i is a 'G' followed by the mark of bit i. */
  lemma {:induction false} PaddingMarks(bits: string)
    ensures forall i :: 0 <= i < |bits| ==> Padding(bits)[2 * i] == 'G'
    ensures forall i :: 0 <= i < |bits| ==> Padding(bits)[2 * i + 1] == Mark(bits[i])
    decreases |bits|
  {
    if bits != [] {
      PaddingMarks(bits[1..]);
      var r' := Padding(bits[1..]);
      assert Padding(bits) == ['G', Mark(bits[0])] + r';
      forall i | 1 <= i < |bits|
        ensures Padding(bits)[2 * i] == 'G'
        ensures Padding(bits)[2 * i + 1] == Mark(bits[i])
      {
        assert Padding(bits)[2 * i] == r'[2 * (i - 1)];
        assert Padding(bits)[2 * i + 1] == r'[2 * (i - 1) + 1] && bits[i] == bits[1..][i - 1];
      }
    }
  }

  /** The case exercised by tests/test_core.py: a 16-base sequence and the watermark
      "test_user" (72 bits) give DNA back, and the watermark extracts unchanged. */
  lemma TestCoreExample(s: string, w: string)
    requires s == "ATCGATCGATCGATCG" && w == "test_user"
    ensures IsDna(Interleaved(s, TextToBinary(w)))
    ensures BinaryToText(MarkBits(Interleaved(s, TextToBinary(w)))) == w
  {
    assert IsDna(s);
    assert IsByteText(w);
    InterleavedIsDna(s, TextToBinary(w));
    EmbedExtractRoundTrip(s, w);
  }
}
