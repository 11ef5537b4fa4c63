/**
 * The symbol sequencer of `encode_to_gibberlink`: the framed bits are cut into
 * 4-bit chunks, each chunk is looked up in `freq_map` and rendered as one tone
 * followed by a short pause, and the whole is bracketed by a start beep and an
 * end boop. A tone is described by its shape, frequency, duration and
 * amplitude rather than by its samples.
 */
module Sequencer {
  import opened Bits
  import opened Constellation
  import opened BitCodec
  import opened Framer

  /** One entry of `audio_segments`; durations in milliseconds, amplitudes in hundredths. */
  datatype Segment =
    | Beep(freq: int, durationMs: nat, amplitudePct: nat)  // generate_beep: steady sine with fade edges
    | Boop(freq: int, durationMs: nat, amplitudePct: nat)  // generate_boop: swept sine with decay
    | Silence(durationMs: nat)                             // np.zeros

  /** `bit_duration = 0.01` seconds per symbol tone. */
  const BitDurationMs: nat := 10
  /** The default amplitudes of `generate_beep` (0.5) and `generate_boop` (0.4). */
  const BeepAmplitudePct: nat := 50
  const BoopAmplitudePct: nat := 40

  /** `generate_beep(2500, 0.05, 0.6)` and the 0.01 s pause after it. */
  const StartMarker: Segment := Beep(StartMarkerFreq, 50, 60)
  const MarkerGap: Segment := Silence(10)
  /** The 0.002 s pause after every symbol tone. */
  const SymbolGap: Segment := Silence(2)
  /** `generate_boop(600, 0.05, 0.6)`. */
  const EndMarker: Segment := Boop(EndMarkerFreq, 50, 60)

  /** The tone for one symbol frequency: a beep at 1600 Hz and above, a boop below. */
  function ToneFor(freq: int): (r: Segment)
    ensures !r.Silence? && r.freq == freq && r.durationMs == BitDurationMs
    ensures r.Beep? <==> freq >= BeepThreshold
    ensures r.amplitudePct == if r.Beep? then BeepAmplitudePct else BoopAmplitudePct
  {
    if freq >= BeepThreshold then Beep(freq, BitDurationMs, BeepAmplitudePct)
    else Boop(freq, BitDurationMs, BoopAmplitudePct)
  }

  /** The slices `s[i:i+4]` for `i in range(0, len(s), 4)`. */
  function Chunks(s: string): (r: seq<string>)
    ensures forall j :: 0 <= j < |r| ==> 0 < |r[j]| <= 4
    ensures |s| % 4 == 0 ==> |r| == |s| / 4 && forall j :: 0 <= j < |r| ==> |r[j]| == 4
    decreases |s|
  {
    if s == [] then []
    else if |s| <= 4 then [s]
    else [s[..4]] + Chunks(s[4..])
  }

  function Concat(cs: seq<string>): string {
    if cs == [] then "" else cs[0] + Concat(cs[1..])
  }

  /** What one pass of the chunk loop appends: a tone and a pause when the chunk is a symbol. */
  function ChunkSegments(chunk: string): seq<Segment> {
    if chunk in FreqMap then [ToneFor(FreqMap[chunk]), SymbolGap] else []
  }

  function SymbolSegments(chunks: seq<string>): seq<Segment> {
    if chunks == [] then [] else ChunkSegments(chunks[0]) + SymbolSegments(chunks[1..])
  }

  /** The descriptors of the audio `encode_to_gibberlink` builds from the framed bits. */
  function Sequence(framed: string): (r: seq<Segment>)
    ensures |r| >= 3 && r[0] == StartMarker && r[1] == MarkerGap && r[|r| - 1] == EndMarker
  {
    [StartMarker, MarkerGap] + SymbolSegments(Chunks(framed)) + [EndMarker]
  }

  /** The chunk starting at `i` is `s[i:i+4]`, cut short at the end of `s`. */
  lemma ChunksStep(s: string, i: nat)
    requires i < |s|
    ensures Chunks(s[i..]) == [s[i..Min(i + 4, |s|)]] + Chunks(s[Min(i + 4, |s|)..])
  {
    var t := s[i..];
    if |t| <= 4 {
      assert t == s[i..Min(i + 4, |s|)] && s[Min(i + 4, |s|)..] == [];
    } else {
      assert t[..4] == s[i..i + 4] && t[4..] == s[i + 4..];
    }
  }

  /** One pass of the chunk loop: the first chunk's segments, then those of the rest. */
  lemma SegmentsStep(s: string, i: nat)
    requires i < |s|
    ensures SymbolSegments(Chunks(s[i..]))
         == ChunkSegments(s[i..Min(i + 4, |s|)]) + SymbolSegments(Chunks(s[Min(i + 4, |s|)..]))
  {
    ChunksStep(s, i);
    var rest := Chunks(s[Min(i + 4, |s|)..]);
    assert ([s[i..Min(i + 4, |s|)]] + rest)[1..] == rest;
  }

  /** The padding loop of `encode_to_gibberlink`: append '0' until the length is a multiple of four. */
  method PadWithZeros(bits: string) returns (padded: string)
    ensures padded == PadToNibble(bits)
  {
    padded := bits;
    while |padded| % 4 != 0
      invariant PadToNibble(padded) == PadToNibble(bits)
      decreases |PadToNibble(bits)| - |padded|
    {
      padded := padded + "0";
    }
  }

  /**
   * The segment loop of `encode_to_gibberlink`: the start marker and its pause,
   * then for each chunk `full_binary[i:i+4]` found in `freq_map` its tone and a
   * pause, then the end marker.
   */
  method EmitSegments(fullBinary: string) returns (segments: seq<Segment>)
    ensures segments == Sequence(fullBinary)
  {
    assert fullBinary[0..] == fullBinary;
    segments := [StartMarker, MarkerGap];
    var i := 0;
    while i < |fullBinary|
      invariant 0 <= i
      invariant segments + SymbolSegments(Chunks(fullBinary[Min(i, |fullBinary|)..]))
             == [StartMarker, MarkerGap] + SymbolSegments(Chunks(fullBinary))
      decreases |fullBinary| - i
    {
      var chunk := fullBinary[i..Min(i + 4, |fullBinary|)];
      ghost var before := segments;
      if chunk in FreqMap {
        var freq := FreqMap[chunk];
        var segment;
        if freq >= BeepThreshold {
          segment := Beep(freq, BitDurationMs, BeepAmplitudePct);
        } else {
          segment := Boop(freq, BitDurationMs, BoopAmplitudePct);
        }
        segments := segments + [segment];
        segments := segments + [SymbolGap];
        assert segment == ToneFor(freq);
        ToneStep(chunk, before, segments);
      }
      EmitStep(fullBinary, i, before, segments);
      i := i + 4;
    }
    assert fullBinary[Min(i, |fullBinary|)..] == [];
    segments := segments + [EndMarker];
  }

  /** Appending a symbol's tone and then a pause appends its `ChunkSegments`. */
  lemma ToneStep(chunk: string, before: seq<Segment>, after: seq<Segment>)
    requires chunk in FreqMap
    requires after == before + [ToneFor(FreqMap[chunk])] + [SymbolGap]
    ensures after == before + ChunkSegments(chunk)
  {
  }

  /** The loop invariant of `EmitSegments` survives one pass over the chunk at `i`. */
  lemma EmitStep(s: string, i: nat, before: seq<Segment>, after: seq<Segment>)
    requires i < |s|
    requires after == before + ChunkSegments(s[i..Min(i + 4, |s|)])
    ensures before + SymbolSegments(Chunks(s[i..]))
         == after + SymbolSegments(Chunks(s[Min(i + 4, |s|)..]))
  {
    SegmentsStep(s, i);
  }

  /**
   * `encode_to_gibberlink` up to the concatenation of `audio_segments`: encode
   * the text, put the sync header in front, pad, and emit the segments.
   */
  method EncodeToGibberlink(text: string) returns (segments: seq<Segment>)
    ensures segments == Sequence(Frame(EncodeText(text)))
  {
    var binary := TextToBinary(text);
    var header := SyncHeader;
    var fullBinary := PadWithZeros(header + binary);
    segments := EmitSegments(fullBinary);
  }

  /** Every chunk of a whole-symbol bit string is the next four digits, and a key of `freq_map`. */
  lemma ChunksAreSymbols(s: string)
    requires IsBits(s) && |s| % 4 == 0
    ensures forall j :: 0 <= j < |Chunks(s)| ==>
      Chunks(s)[j] == s[4 * j..4 * j + 4] && Chunks(s)[j] in FreqMap
  {
    ChunksAreSlices(s);
    forall j | 0 <= j < |Chunks(s)| ensures Chunks(s)[j] in FreqMap {
      SliceIsBits(s, 4 * j, 4 * j + 4);
      NibbleIsKey(s[4 * j..4 * j + 4]);
    }
  }

  /** For a length that is a multiple of four, the j-th chunk is `s[4j:4j+4]`. */
  lemma {:induction false} ChunksAreSlices(s: string)
    requires |s| % 4 == 0
    ensures |Chunks(s)| == |s| / 4
    ensures forall j :: 0 <= j < |Chunks(s)| ==> Chunks(s)[j] == s[4 * j..4 * j + 4]
  {
    if s != [] {
      var rest := s[4..];
      ChunksAreSlices(rest);
      ChunksStep(s, 0);
      assert s[0..] == s && s[0..4] == s[..4];
      forall j | 0 <= j < |Chunks(s)| ensures Chunks(s)[j] == s[4 * j..4 * j + 4] {
        if j > 0 {
          ShiftedSlice(s, 4, 4 * (j - 1));
        }
      }
    }
  }

  /** A slice of `s[d..]` is the slice of `s` shifted by `d`. */
  lemma ShiftedSlice(s: string, d: nat, a: nat)
    requires d + a + 4 <= |s|
    ensures s[d..][a..a + 4] == s[d + a..d + a + 4]
  {
  }

  /** Symbol chunks give exactly one tone and one pause each, in order. */
  lemma {:induction false} SymbolSegmentsLayout(cs: seq<string>)
    requires forall j :: 0 <= j < |cs| ==> cs[j] in FreqMap
    ensures |SymbolSegments(cs)| == 2 * |cs|
    ensures forall j :: 0 <= j < |cs| ==>
      SymbolSegments(cs)[2 * j] == ToneFor(FreqMap[cs[j]]) && SymbolSegments(cs)[2 * j + 1] == SymbolGap
  {
    if cs != [] {
      SymbolSegmentsLayout(cs[1..]);
      var segs := SymbolSegments(cs);
      assert segs == [ToneFor(FreqMap[cs[0]]), SymbolGap] + SymbolSegments(cs[1..]);
      forall j | 0 <= j < |cs|
        ensures segs[2 * j] == ToneFor(FreqMap[cs[j]]) && segs[2 * j + 1] == SymbolGap
      {
        if j > 0 {
          assert cs[j] == cs[1..][j - 1];
          PairShift([ToneFor(FreqMap[cs[0]]), SymbolGap], SymbolSegments(cs[1..]), j - 1);
        }
      }
    }
  }

  /** The pair at position `j` of `y` is the pair at position `j + 1` of `x + y` when `x` is one pair. */
  lemma PairShift<T>(x: seq<T>, y: seq<T>, j: nat)
    requires |x| == 2 && 2 * j + 1 < |y|
    ensures (x + y)[2 * (j + 1)] == y[2 * j] && (x + y)[2 * (j + 1) + 1] == y[2 * j + 1]
  {
  }

  /**
   * The segment list for a framed whole-symbol bit string: start beep and
   * pause, then for the j-th 4-bit chunk its `freq_map` tone and a pause, then
   * the end boop.
   */
  lemma SequenceLayout(framed: string)
    requires IsBits(framed) && |framed| % 4 == 0
    ensures |Sequence(framed)| == 2 * (|framed| / 4) + 3
    ensures Sequence(framed)[0] == StartMarker && Sequence(framed)[1] == MarkerGap
    ensures Sequence(framed)[|Sequence(framed)| - 1] == EndMarker
    ensures forall j :: 0 <= j < |Chunks(framed)| ==>
      && Chunks(framed)[j] == framed[4 * j..4 * j + 4]
      && Chunks(framed)[j] in FreqMap
      && Sequence(framed)[2 * j + 2] == ToneFor(FreqMap[Chunks(framed)[j]])
      && Sequence(framed)[2 * j + 3] == SymbolGap
  {
    var cs := Chunks(framed);
    var mid := SymbolSegments(cs);
    ChunksAreSymbols(framed);
    SymbolSegmentsLayout(cs);
    Bracketed(mid);
  }

  /** The markers and their pause around a list of symbol segments, position by position. */
  lemma Bracketed(mid: seq<Segment>)
    ensures |[StartMarker, MarkerGap] + mid + [EndMarker]| == |mid| + 3
    ensures ([StartMarker, MarkerGap] + mid + [EndMarker])[0] == StartMarker
    ensures ([StartMarker, MarkerGap] + mid + [EndMarker])[1] == MarkerGap
    ensures ([StartMarker, MarkerGap] + mid + [EndMarker])[|mid| + 2] == EndMarker
    ensures forall i :: 0 <= i < |mid| ==> ([StartMarker, MarkerGap] + mid + [EndMarker])[i + 2] == mid[i]
  {
  }

  /** A symbol's tone carries its `freq_map` frequency and is a beep exactly when the symbol starts with '1'. */
  lemma ToneShape(chunk: string)
    requires chunk in FreqMap
    ensures ToneFor(FreqMap[chunk]).freq == FreqMap[chunk]
    ensures ToneFor(FreqMap[chunk]).durationMs == BitDurationMs
    ensures ToneFor(FreqMap[chunk]).Beep? <==> chunk[0] == '1'
    ensures ToneFor(FreqMap[chunk]).Boop? <==> chunk[0] == '0'
  {
    BeepIffLeadingOne();
    FreqMapKeys();
    assert IsBit(chunk[0]);
  }

  /** In the emitted sequence, the j-th symbol tone is a beep exactly when the j-th chunk starts with '1'. */
  lemma SequenceShapes(framed: string)
    requires IsBits(framed) && |framed| % 4 == 0
    ensures |Sequence(framed)| == 2 * |Chunks(framed)| + 3
    ensures forall j :: 0 <= j < |Chunks(framed)| ==>
      (Sequence(framed)[2 * j + 2].Beep? <==> Chunks(framed)[j][0] == '1')
  {
    SequenceLayout(framed);
    var cs := Chunks(framed);
    forall j | 0 <= j < |cs| ensures Sequence(framed)[2 * j + 2].Beep? <==> cs[j][0] == '1' {
      ToneShape(cs[j]);
    }
  }

  /** Empty text still sends the sync header: two 1800 Hz beeps for the two chunks `1010`. */
  lemma EmptyTextSequence()
    ensures Sequence(Frame(EncodeText(""))) ==
      [StartMarker, MarkerGap,
       Beep(1800, BitDurationMs, BeepAmplitudePct), SymbolGap,
       Beep(1800, BitDurationMs, BeepAmplitudePct), SymbolGap,
       EndMarker]
  {
    FrameWithoutPadding("");
    assert SyncHeader + "" == SyncHeader;
    ChunksStep(SyncHeader, 0);
    ChunksStep(SyncHeader, 4);
    assert SyncHeader[0..] == SyncHeader && SyncHeader[8..] == [];
    assert SyncHeader[0..4] == "1010" && SyncHeader[4..8] == "1010";
    assert Chunks(SyncHeader[4..]) == ["1010"];
    assert Chunks(SyncHeader) == ["1010", "1010"];
    assert ["1010", "1010"][1..] == ["1010"];
  }

  /** The digits a tone stands for under `reverse_freq_map`; pauses and off-table tones stand for none. */
  ghost function Heard(segment: Segment): string {
    match segment
    case Beep(f, _, _) => if f in ReverseFreqMap then ReverseFreqMap[f] else ""
    case Boop(f, _, _) => if f in ReverseFreqMap then ReverseFreqMap[f] else ""
    case Silence(_) => ""
  }

  /** The digits of all tones of a segment list, read back through `reverse_freq_map`. */
  ghost function HeardBits(segments: seq<Segment>): string {
    if segments == [] then "" else Heard(segments[0]) + HeardBits(segments[1..])
  }

  lemma {:induction false} HeardBitsAppend(a: seq<Segment>, b: seq<Segment>)
    ensures HeardBits(a + b) == HeardBits(a) + HeardBits(b)
  {
    if a != [] {
      assert (a + b)[1..] == a[1..] + b;
      HeardBitsAppend(a[1..], b);
    } else {
      assert a + b == b;
    }
  }

  lemma {:induction false} ConcatChunks(s: string)
    ensures Concat(Chunks(s)) == s
    decreases |s|
  {
    if |s| > 4 {
      ConcatChunks(s[4..]);
      assert s == s[..4] + s[4..];
    } else if s != [] {
      assert Concat([s]) == s + Concat([]);
    }
  }

  /** Reading the symbol tones back through `reverse_freq_map` gives the chunks, concatenated. */
  lemma {:induction false} HeardSymbols(cs: seq<string>)
    requires forall j :: 0 <= j < |cs| ==> cs[j] in FreqMap
    ensures HeardBits(SymbolSegments(cs)) == Concat(cs)
  {
    if cs != [] {
      ReverseIsInverse();
      HeardSymbols(cs[1..]);
      var c := cs[0];
      HeardBitsAppend([ToneFor(FreqMap[c]), SymbolGap], SymbolSegments(cs[1..]));
      assert HeardBits([ToneFor(FreqMap[c]), SymbolGap]) == Heard(ToneFor(FreqMap[c])) + HeardBits([SymbolGap]);
      assert Heard(ToneFor(FreqMap[c])) == c;
    }
  }

  /**
   * Mapping every emitted tone back through `reverse_freq_map` reproduces the
   * framed bits exactly; the markers lie outside the table and add nothing.
   */
  lemma HeardFrame(framed: string)
    requires IsBits(framed) && |framed| % 4 == 0
    ensures HeardBits(Sequence(framed)) == framed
  {
    var cs := Chunks(framed);
    ChunksAreSymbols(framed);
    HeardSymbols(cs);
    ConcatChunks(framed);
    HeardBracketed(SymbolSegments(cs));
  }

  /** The markers read as no digits, so bracketing a segment list does not change what is heard. */
  lemma HeardBracketed(mid: seq<Segment>)
    ensures HeardBits([StartMarker, MarkerGap] + mid + [EndMarker]) == HeardBits(mid)
  {
    MarkersOutsideConstellation();
    HeardBitsAppend([StartMarker, MarkerGap], mid);
    HeardBitsAppend([StartMarker, MarkerGap] + mid, [EndMarker]);
    assert HeardBits([StartMarker, MarkerGap]) == "" by {
      assert HeardBits([StartMarker, MarkerGap]) == Heard(StartMarker) + HeardBits([MarkerGap]);
    }
    assert HeardBits([EndMarker]) == Heard(EndMarker) + HeardBits([]);
  }

  /**
   * For any text, the tones `encode_to_gibberlink` emits carry the framed bits;
   * for code points below 256 those are the sync header followed by the text's
   * digits, and `binary_to_text` of what follows the header gives the text back.
   */
  lemma EncodeRoundTrip(text: string)
    ensures HeardBits(Sequence(Frame(EncodeText(text)))) == Frame(EncodeText(text))
    ensures IsLatin1(text) ==>
      var heard := HeardBits(Sequence(Frame(EncodeText(text))));
      && heard == SyncHeader + EncodeText(text)
      && heard[..|SyncHeader|] == SyncHeader
      && IsBits(heard[|SyncHeader|..])
      && DecodeBits(heard[|SyncHeader|..]) == text
  {
    var framed := Frame(EncodeText(text));
    FrameIsBits(EncodeText(text));
    HeardFrame(framed);
    if IsLatin1(text) {
      TextFrameIsUnpadded(text);
      assert framed[|SyncHeader|..] == EncodeText(text);
      DecodeEncode(text);
    }
  }
}
