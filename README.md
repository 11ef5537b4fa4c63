# Gibberlink encoder core in Dafny

Gibberlink's `GibberlinkProtocol` turns text into a sound signal by frequency-shift keying. This project models the discrete part of that encoder and proves properties of it:

- **Tone constellation** (`constellation.dfy`, module `Constellation`). `freq_map` is the fixed table from each 4-bit symbol `0000`..`1111` to a frequency in Hz. `reverse_freq_map` is its inverse, built by a dictionary comprehension and modelled by `Invert`. The module also holds the beep/boop threshold of 1600 Hz and the marker frequencies of 2500 Hz and 600 Hz.
- **Bit codec** (`bit_codec.dfy`, module `BitCodec`).
  - `text_to_binary` writes each character as `format(ord(c), '08b')`. A code point above 255 yields more than eight digits, as in the code.
  - `binary_to_text` reads back groups of eight digits and drops a trailing shorter group.
  - Both are methods with loops, each proved equal to a recursive specification function (`EncodeText`, `DecodeBits`).
- **Framer** (`framer.dfy`, module `Framer`). `encode_to_gibberlink` puts the sync header `10101010` in front of the payload bits. It then appends `'0'` until the length is a multiple of four.
- **Symbol sequencer** (`sequencer.dfy`, module `Sequencer`). The framed bits are cut into 4-bit chunks and each chunk is looked up in `freq_map`. A frequency of 1600 Hz or more is rendered as a beep, a lower one as a boop, and every tone is followed by a 2 ms pause.
  - The chunks are bracketed by a 2500 Hz start beep plus a 10 ms pause, and a 600 Hz end boop.
  - An audio segment is modelled as a descriptor: shape, frequency, duration in milliseconds and amplitude in hundredths.
- `bits.dfy` (module `Bits`) holds strings of binary digits and their numeric value (`int(s, 2)`).

Points where the model follows the code:

- Empty text is not sent as padding symbols. The header alone yields two 1800 Hz beeps (`Sequencer.EmptyTextSequence`).
- Characters above code point 255 are not rejected. They are encoded with more than eight digits and padded like any other payload. The round trip is proved for code points 0..255.
- No decoder for the audio exists in the code. The reading-back direction is stated through `reverse_freq_map` (`Sequencer.HeardBits`) and `binary_to_text`, and is not modelled as new decoder behaviour.
- `base_freq = 1000` and `freq_step = 100` are set but never used. The table itself starts at 800 Hz.

## Model

| member | source | states |
|---|---|---|
| Bits.Value | template/gibberli/tempCodeRunnerFile.py:76 | `int(byte, 2)`: the number a digit string denotes is below 2^length |
| Bits.Fixed | template/gibberli/tempCodeRunnerFile.py:59 | writing a number in `w` binary digits gives exactly `w` digits, all `'0'`/`'1'` |
| Bits.BitLength | template/gibberli/tempCodeRunnerFile.py:59 | the digit count of a number without leading zeros is the least `r` with n < 2^r |
| Bits.ValueOfFixed | template/gibberli/tempCodeRunnerFile.py:59 | reading back a number written in enough digits gives the number |
| Bits.FixedOfValue | template/gibberli/tempCodeRunnerFile.py:76 | writing the value of a digit string in as many digits gives the string back |
| Bits.LeadingOne | template/gibberli/tempCodeRunnerFile.py:59 | a positive number written without leading zeros starts with `'1'` |
| Bits.ValueInjective | template/gibberli/tempCodeRunnerFile.py:76 | two digit strings of one length with the same value are equal |
| Constellation.FreqMap | template/gibberli/tempCodeRunnerFile.py:25-42 | the literal table of sixteen entries, `'0000'` to 800 Hz through `'1111'` to 2300 Hz; its properties are the lemmas below |
| Constellation.Invert | template/gibberli/tempCodeRunnerFile.py:45 | the dictionary comprehension `{v: k for k, v in m.items()}`, defined for a one-to-one table; `InvertIsInverse` states what it gives |
| Constellation.ReverseFreqMap | template/gibberli/tempCodeRunnerFile.py:45 | `reverse_freq_map`, the inverse of `freq_map`; `ReverseIsInverse` states its keys and both inverse laws |
| Constellation.NibbleIsKey | template/gibberli/tempCodeRunnerFile.py:25-42 | every 4-digit binary string is a key of `freq_map` |
| Constellation.FreqMapKeys | template/gibberli/tempCodeRunnerFile.py:25-42 | the keys of `freq_map` are exactly the 4-character `'0'`/`'1'` strings |
| Constellation.FreqMapSize | template/gibberli/tempCodeRunnerFile.py:25-42 | `freq_map` has 16 keys and 16 distinct frequencies |
| Constellation.FreqMapIsLinear | template/gibberli/tempCodeRunnerFile.py:25-42 | each key `k` maps to 800 + 100 * int(k, 2) |
| Constellation.FreqMapIsInjective | template/gibberli/tempCodeRunnerFile.py:25-42 | all frequencies lie in 800..2300 and no two keys share one |
| Constellation.InvertIsInverse | template/gibberli/tempCodeRunnerFile.py:45 | the comprehension `{v: k for k, v in m.items()}` of a one-to-one table has the table's values as keys and undoes it in both directions |
| Constellation.ReverseIsInverse | template/gibberli/tempCodeRunnerFile.py:45 | `reverse_freq_map[freq_map[k]] == k` for every key and `freq_map[reverse_freq_map[f]] == f` for every frequency; its keys are the table's values |
| Constellation.MarkersOutsideConstellation | template/gibberli/tempCodeRunnerFile.py:157-188 | 2500 Hz and 600 Hz are not keys of `reverse_freq_map`, and every table frequency lies strictly between them |
| Constellation.BeepIffLeadingOne | template/gibberli/tempCodeRunnerFile.py:175-178 | a symbol's frequency is at least 1600 exactly when the symbol's first digit is `'1'` |
| BitCodec.FormatCode | template/gibberli/tempCodeRunnerFile.py:59 | `format(ord(c), '08b')` is binary digits whose value is the code point; its length is 8 or the code point's own digit count, whichever is larger, so it is exactly 8 iff the code point is below 256, and a longer result starts with `'1'` |
| BitCodec.FormatCodeAbove255 | template/gibberli/tempCodeRunnerFile.py:59 | `format(256, '08b')` is the nine digits `100000000`, with no leading zero |
| BitCodec.EncodeText | template/gibberli/tempCodeRunnerFile.py:57-60 | the encoded text is binary digits, at least 8 per character |
| BitCodec.TextToBinary | template/gibberli/tempCodeRunnerFile.py:57-60 | the loop builds exactly `EncodeText(text)` |
| BitCodec.EncodeStep | template/gibberli/tempCodeRunnerFile.py:58-59 | one pass of the `text_to_binary` loop appends the next character's digits and keeps the rest of the encoding to come |
| BitCodec.ByteChar | template/gibberli/tempCodeRunnerFile.py:76 | `chr(int(byte, 2))` is the character whose code point is the group's value |
| BitCodec.DecodeBits | template/gibberli/tempCodeRunnerFile.py:72-77 | decoding gives exactly floor(len(binary)/8) characters, each below code point 256 |
| BitCodec.BinaryToText | template/gibberli/tempCodeRunnerFile.py:72-77 | the loop builds exactly `DecodeBits(binary)` |
| BitCodec.DecodeStep | template/gibberli/tempCodeRunnerFile.py:73-76 | one pass of the `binary_to_text` loop appends the next character for a full group, nothing for a short one, and keeps the rest of the decoding to come |
| BitCodec.EncodedLength | template/gibberli/tempCodeRunnerFile.py:57-60 | the encoding has exactly 8 digits per character iff every code point is below 256 |
| BitCodec.DecodeAppend | template/gibberli/tempCodeRunnerFile.py:72-77 | decoding a concatenation whose first part is whole groups decodes the parts separately |
| BitCodec.DecodeOneCode | template/gibberli/tempCodeRunnerFile.py:57-77 | one character below 256 decodes back from its 8 digits |
| BitCodec.FormatByte | template/gibberli/tempCodeRunnerFile.py:57-77 | a group of 8 digits is written back unchanged from the character it decodes to |
| BitCodec.DecodeEncode | template/gibberli/tempCodeRunnerFile.py:57-77 | `binary_to_text(text_to_binary(t)) == t` when every code point is below 256 |
| BitCodec.EncodeDecode | template/gibberli/tempCodeRunnerFile.py:57-77 | `text_to_binary(binary_to_text(b))` is `b` cut to its whole 8-digit groups |
| BitCodec.DecodeDropsPartialGroup | template/gibberli/tempCodeRunnerFile.py:73-76 | a trailing group shorter than 8 digits does not change the decoded text |
| BitCodec.PaddingIsInvisible | template/gibberli/tempCodeRunnerFile.py:73-76 | appending fewer than 8 digits to whole groups leaves the decoded text unchanged |
| Framer.PadToNibble | template/gibberli/tempCodeRunnerFile.py:153-155 | the padded string has length a multiple of 4, starts with the input verbatim, and adds fewer than 4 digits, all `'0'` |
| Framer.Frame | template/gibberli/tempCodeRunnerFile.py:149-155 | the framed string starts with `10101010`, then the payload verbatim, then fewer than 4 `'0'` digits, and its length is a multiple of 4 |
| Framer.FrameIsBits | template/gibberli/tempCodeRunnerFile.py:149-155 | framing binary digits gives binary digits |
| Framer.FrameWithoutPadding | template/gibberli/tempCodeRunnerFile.py:153-155 | a payload of whole symbols gets no padding |
| Framer.TextFrameIsUnpadded | template/gibberli/tempCodeRunnerFile.py:146-155 | for code points below 256 the framed string is the header followed by the text's digits, with no padding |
| Framer.WholeSymbols | template/gibberli/tempCodeRunnerFile.py:146-155 | the digits of text with code points below 256 split into whole 4-bit symbols |
| Sequencer.StartMarker | template/gibberli/tempCodeRunnerFile.py:160-161 | `generate_beep(2500, 0.05, 0.6)`: a 2500 Hz beep of 50 ms at amplitude 60 hundredths |
| Sequencer.MarkerGap | template/gibberli/tempCodeRunnerFile.py:164-165 | the 0.01 s pause after the start beep |
| Sequencer.SymbolGap | template/gibberli/tempCodeRunnerFile.py:183-184 | the 0.002 s pause after every symbol tone |
| Sequencer.EndMarker | template/gibberli/tempCodeRunnerFile.py:187-188 | `generate_boop(600, 0.05, 0.6)`: a 600 Hz boop of 50 ms at amplitude 60 hundredths |
| Sequencer.ToneFor | template/gibberli/tempCodeRunnerFile.py:174-178 | a symbol tone keeps its frequency and the 10 ms `bit_duration`, is a beep exactly at 1600 Hz or above, and takes the beep's default amplitude 0.5 or the boop's 0.4 |
| Sequencer.ChunkSegments | template/gibberli/tempCodeRunnerFile.py:171-184 | one pass of the chunk loop: the chunk's tone followed by the short pause when the chunk is a key of `freq_map`, nothing otherwise; `SymbolSegmentsLayout` states the result over all chunks |
| Sequencer.Sequence | template/gibberli/tempCodeRunnerFile.py:157-188 | the whole segment list: it starts with the start beep and its pause and ends with the end boop; `SequenceLayout` states what lies between |
| Sequencer.Chunks | template/gibberli/tempCodeRunnerFile.py:168-169 | each slice `s[i:i+4]` has 1 to 4 digits, and a length that is a multiple of 4 gives len(s)/4 chunks of exactly 4 |
| Sequencer.ChunksStep | template/gibberli/tempCodeRunnerFile.py:168-169 | the chunk at offset `i` is `s[i:i+4]`, cut short at the end, followed by the chunks after it |
| Sequencer.SegmentsStep | template/gibberli/tempCodeRunnerFile.py:168-184 | one pass of the chunk loop appends the first chunk's segments before those of the rest |
| Sequencer.EmitStep | template/gibberli/tempCodeRunnerFile.py:168-184 | the segment loop's invariant survives one pass, whether or not the chunk is a key of `freq_map` |
| Sequencer.PadWithZeros | template/gibberli/tempCodeRunnerFile.py:153-155 | the `while` padding loop computes exactly `PadToNibble(bits)` |
| Sequencer.EmitSegments | template/gibberli/tempCodeRunnerFile.py:157-188 | the segment list built from the framed bits is exactly `Sequence(fullBinary)` |
| Sequencer.EncodeToGibberlink | template/gibberli/tempCodeRunnerFile.py:132-188 | the encoder's segment list is `Sequence(Frame(EncodeText(text)))` |
| Sequencer.ChunksAreSymbols | template/gibberli/tempCodeRunnerFile.py:168-171 | every chunk of a whole-symbol digit string is its next 4 digits and a key of `freq_map` |
| Sequencer.ChunksAreSlices | template/gibberli/tempCodeRunnerFile.py:168-169 | for a length that is a multiple of 4 there are len(s)/4 chunks and the j-th is `s[4j:4j+4]` |
| Sequencer.SymbolSegmentsLayout | template/gibberli/tempCodeRunnerFile.py:168-184 | symbol chunks give exactly one tone and one pause each, in order, the tone carrying the chunk's frequency |
| Sequencer.SequenceLayout | template/gibberli/tempCodeRunnerFile.py:157-188 | the list is the start beep, its pause, then len(framed)/4 tone-and-pause pairs whose j-th tone is the j-th chunk's `freq_map` tone, then the end boop |
| Sequencer.ToneShape | template/gibberli/tempCodeRunnerFile.py:171-178 | a symbol's tone has its table frequency and the 10 ms symbol duration, and is a beep iff the symbol starts with `'1'` and a boop iff it starts with `'0'` |
| Sequencer.SequenceShapes | template/gibberli/tempCodeRunnerFile.py:168-184 | the j-th tone of the emitted list is a beep exactly when the j-th chunk starts with `'1'` |
| Sequencer.EmptyTextSequence | template/gibberli/tempCodeRunnerFile.py:145-188 | empty text gives the start marker, two 1800 Hz beeps each with its pause, and the end marker |
| Sequencer.HeardBitsAppend | template/gibberli/tempCodeRunnerFile.py:157-188 | reading tones back over a concatenation is the concatenation of the readings |
| Sequencer.ConcatChunks | template/gibberli/tempCodeRunnerFile.py:168-169 | joining the chunks gives back the whole string |
| Sequencer.HeardSymbols | template/gibberli/tempCodeRunnerFile.py:168-172 | reading symbol tones back through `reverse_freq_map` gives the chunks, joined |
| Sequencer.HeardFrame | template/gibberli/tempCodeRunnerFile.py:157-188 | reading every emitted tone back through `reverse_freq_map` reproduces the framed bits exactly; markers and pauses add nothing |
| Sequencer.HeardBracketed | template/gibberli/tempCodeRunnerFile.py:157-188 | the start and end markers read as no digits, so they do not change what is read back |
| Sequencer.EncodeRoundTrip | template/gibberli/tempCodeRunnerFile.py:132-188 | for any text the tones carry the framed bits; for code points below 256 those are the header then the text's digits, and `binary_to_text` of the part after the header gives the text |

## Left out

- `generate_beep` and `generate_boop` sample synthesis (sine, sweep, fade and decay envelopes): floating-point numpy arithmetic. A segment is modelled as a descriptor instead.
- Sample counts (`int(sample_rate * duration)`), `np.concatenate` and the peak normalisation to 0.8: floating-point array arithmetic.
- The `print` diagnostics inside `encode_to_gibberlink`: console output only.
- `create_data_packet`: it depends on `json.dumps`, `hashlib.md5` and `time.time()`, which are not part of this model. Its output is fed through the same encoder.
- `simulate_ai_conversation`, `save_audio`, `play_audio` and the `main` menu: orchestration, file and audio-device I/O, and interactive input.
- BitCodec.BinaryToText: requires its input to consist of `'0'`/`'1'` digits. On other input Python's `int(byte, 2)` raises `ValueError`, or accepts whitespace, signs and underscores; the encoder never passes such input.
- BitCodec.DecodeBits: requires binary digits, for the same reason as `BinaryToText`.
- Sequencer.EncodeToGibberlink: the padding loop and the chunk loop of the single Python function are written as the two methods `PadWithZeros` and `EmitSegments`, which it calls in order.
- Python strings may hold lone surrogate code points, which a Dafny `char` cannot. Such characters are outside the model.
