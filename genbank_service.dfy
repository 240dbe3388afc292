/** The sequence layout of the GenBank service (service/genbank_service.py,
    format_sequence): lines of a fixed number of bases, each numbered by its first base
    and written as space-separated chunks of ten. */
module GenbankService {
  import opened Common

  /** One formatted line: the 1-based number of its first base and its text. */
  datatype Line = Line(position: int, sequence: string)

  /** The concatenation of a list of strings. */
  function Concat(cs: seq<string>): string
  {
    if cs == [] then [] else cs[0] + Concat(cs[1..])
  }

  /** " ".join(cs). */
  function JoinSpaced(cs: seq<string>): string
  {
    if cs == [] then [] else if |cs| == 1 then cs[0] else cs[0] + " " + JoinSpaced(cs[1..])
  }

  /** The string without its ' ' characters. */
  function RemoveSpaces(s: string): (r: string)
    ensures forall i :: 0 <= i < |r| ==> r[i] != ' '
  {
    if s == [] then [] else (if s[0] == ' ' then [] else [s[0]]) + RemoveSpaces(s[1..])
  }

  predicate NoSpaces(s: string)
  {
    forall i :: 0 <= i < |s| ==> s[i] != ' '
  }

  /** The string cut into consecutive pieces of ten characters, the last one possibly
      shorter. */
  function Chunks(s: string): (cs: seq<string>)
    decreases |s|
  {
    if s == [] then [] else [s[..Min(10, |s|)]] + Chunks(s[Min(10, |s|)..])
  }

  /** The chunks are ten bases long except possibly the last, none is empty, there are
      ceil(|s| / 10) of them, and together they are s. */
  lemma {:induction false} ChunksShape(s: string)
    ensures Concat(Chunks(s)) == s
    ensures |Chunks(s)| == (|s| + 9) / 10
    ensures forall k | 0 <= k < |Chunks(s)| :: 1 <= |Chunks(s)[k]| <= 10
    ensures forall k | 0 <= k < |Chunks(s)| - 1 :: |Chunks(s)[k]| == 10
    decreases |s|
  {
    if s != [] {
      var n := Min(10, |s|);
      ChunksShape(s[n..]);
      var cs := Chunks(s);
      assert cs[1..] == Chunks(s[n..]);
      assert s == s[..n] + s[n..];
      forall k | 1 <= k < |cs|
        ensures 1 <= |cs[k]| <= 10 && (k < |cs| - 1 ==> |cs[k]| == 10)
      {
        assert cs[k] == Chunks(s[n..])[k - 1];
      }
      if |s| > 10 {
        assert |cs| >= 2;
      }
    }
  }

  lemma {:induction false} RemoveSpacesAppend(a: string, b: string)
    ensures RemoveSpaces(a + b) == RemoveSpaces(a) + RemoveSpaces(b)
    decreases |a|
  {
    if a == [] {
      assert a + b == b;
    } else {
      assert (a + b)[0] == a[0] && (a + b)[1..] == a[1..] + b;
      RemoveSpacesAppend(a[1..], b);
    }
  }

  lemma {:induction false} RemoveSpacesOfNoSpaces(s: string)
    requires NoSpaces(s)
    ensures RemoveSpaces(s) == s
    decreases |s|
  {
    if s != [] {
      RemoveSpacesOfNoSpaces(s[1..]);
    }
  }

  /** Taking the spaces out of a joined line gives back its chunks, concatenated, as
      long as the chunks hold no spaces of their own. */
  lemma {:induction false} JoinSpacedRoundTrip(cs: seq<string>)
    requires forall k | 0 <= k < |cs| :: NoSpaces(cs[k])
    ensures RemoveSpaces(JoinSpaced(cs)) == Concat(cs)
    decreases |cs|
  {
    if |cs| == 1 {
      RemoveSpacesOfNoSpaces(cs[0]);
      assert Concat(cs) == cs[0] + Concat([]);
    } else if |cs| > 1 {
      JoinSpacedRoundTrip(cs[1..]);
      RemoveSpacesOfNoSpaces(cs[0]);
      RemoveSpacesAppend(cs[0] + " ", JoinSpaced(cs[1..]));
      RemoveSpacesAppend(cs[0], " ");
      assert RemoveSpaces(" ") == [];
      assert cs[0] + [] == cs[0];
    }
  }

  /** The text of the line covering s[i:i + L]. */
  function LineText(s: string, i: nat, L: nat): string
    requires i <= |s|
  {
    JoinSpaced(Chunks(s[i..Min(i + L, |s|)]))
  }

  /** The lines format_sequence produces from offset i on, for a positive line length. */
  function FormattedFrom(s: string, L: nat, i: nat): seq<Line>
    requires L > 0
    decreases |s| - i
  {
    if i >= |s| then [] else [Line(i + 1, LineText(s, i, L))] + FormattedFrom(s, L, i + L)
  }

  /** format_sequence: the sequence cut into lines of line_length bases. A zero line
      length makes range() raise ValueError; a negative one gives no lines. The number
      of positions per line is not used. */
  method FormatSequence(sequence: string, lineLength: int, positionsPerLine: int) returns (r: Result<seq<Line>>)
    ensures lineLength == 0 ==> r == Err(ZeroLineLength)
    ensures lineLength < 0 ==> r == Ok([])
    ensures lineLength > 0 ==> r == Ok(FormattedFrom(sequence, lineLength, 0))
  {
    if lineLength == 0 {
      return Err(ZeroLineLength);
    }
    var formatted: seq<Line> := [];
    if lineLength < 0 {
      return Ok(formatted);
    }
    var i := 0;
    while i < |sequence|
      invariant formatted + FormattedFrom(sequence, lineLength, i) == FormattedFrom(sequence, lineLength, 0)
      decreases |sequence| - i
    {
      var lineSeq := sequence[i..Min(i + lineLength, |sequence|)];
      var position := i + 1;
      var chunks := Chunks(lineSeq);
      formatted := formatted + [Line(position, JoinSpaced(chunks))];
      i := i + lineLength;
    }
    assert formatted + [] == formatted;
    r := Ok(formatted);
  }

  /** The number of steps of L that range(0, n, L) takes. */
  function LineCount(n: int, L: nat): nat
    requires L > 0
    decreases n
  {
    if n <= 0 then 0 else 1 + LineCount(n - L, L)
  }

  /** LineCount is the ceiling of n / L: enough lines of L bases to hold n bases ... */
  lemma {:induction false} LineCountCovers(n: nat, L: nat)
    requires L > 0
    ensures LineCount(n, L) * L >= n
    decreases n
  {
    if n > L {
      LineCountCovers(n - L, L);
      MulStep(LineCount(n - L, L) + 1, L);
    }
  }

  /** ... and one line fewer would not hold them. */
  lemma {:induction false} LineCountTight(n: nat, L: nat)
    requires L > 0 && n > 0
    ensures (LineCount(n, L) - 1) * L < n
    decreases n
  {
    if n > L {
      LineCountTight(n - L, L);
      MulStep(LineCount(n - L, L), L);
    }
  }

  lemma MulStep(k: nat, L: nat)
    requires k >= 1
    ensures (k - 1) * L + L == k * L
  {
  }

  /** There are ceil((|s| - i) / L) lines from offset i. */
  lemma {:induction false} FormattedLength(s: string, L: nat, i: nat)
    requires L > 0
    ensures |FormattedFrom(s, L, i)| == LineCount(|s| - i, L)
    decreases |s| - i
  {
    if i < |s| {
      FormattedLength(s, L, i + L);
    }
  }

  /** Line k from offset i starts at base i + k * L, is numbered 1-based, and holds the
      chunks of the next L bases. */
  lemma {:induction false} FormattedLine(s: string, L: nat, i: nat, k: nat)
    requires L > 0 && k < |FormattedFrom(s, L, i)|
    ensures i + k * L < |s|
    ensures FormattedFrom(s, L, i)[k] == Line(i + k * L + 1, LineText(s, i + k * L, L))
    decreases k
  {
    if k > 0 {
      FormattedLine(s, L, i + L, k - 1);
      MulStep(k, L);
    }
  }

  /** The text of all lines from offset i, spaces removed: the rest of the sequence,
      when the sequence itself has no spaces. */
  function LinesText(lines: seq<Line>): string
  {
    if lines == [] then [] else RemoveSpaces(lines[0].sequence) + LinesText(lines[1..])
  }

  lemma {:induction false} FormattedRoundTrip(s: string, L: nat, i: nat)
    requires L > 0 && i <= |s| && NoSpaces(s)
    ensures LinesText(FormattedFrom(s, L, i)) == s[i..]
    decreases |s| - i
  {
    if i < |s| {
      var j := Min(i + L, |s|);
      FormattedRoundTrip(s, L, j);
      assert FormattedFrom(s, L, i + L) == FormattedFrom(s, L, j);
      LineTextRoundTrip(s, i, L);
      assert s[i..] == s[i..j] + s[j..];
    } else {
      assert s[i..] == [];
    }
  }

  /** Taking the spaces out of one line gives back the bases it covers. */
  lemma LineTextRoundTrip(s: string, i: nat, L: nat)
    requires i <= |s| && NoSpaces(s)
    ensures RemoveSpaces(LineText(s, i, L)) == s[i..Min(i + L, |s|)]
  {
    var part := s[i..Min(i + L, |s|)];
    ChunksShape(part);
    forall k | 0 <= k < |Chunks(part)|
      ensures NoSpaces(Chunks(part)[k])
    {
      ChunksHaveNoSpaces(part, k);
    }
    JoinSpacedRoundTrip(Chunks(part));
  }

  /** Every chunk of a space-free string is space-free. */
  lemma ChunksHaveNoSpaces(s: string, k: nat)
    requires NoSpaces(s) && k < |Chunks(s)|
    ensures NoSpaces(Chunks(s)[k])
    decreases |s|
  {
    var n := Min(10, |s|);
    if k > 0 {
      assert Chunks(s)[k] == Chunks(s[n..])[k - 1];
      ChunksHaveNoSpaces(s[n..], k - 1);
    }
  }
}
