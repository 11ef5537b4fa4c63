/**
 * The bit codec of `GibberlinkProtocol`: `text_to_binary` writes every
 * character as `format(ord(c), '08b')`, and `binary_to_text` reads the string
 * back eight digits at a time, dropping a trailing group shorter than eight.
 */
module BitCodec {
  import opened Bits

  /** Every character has a code point below 256, so fits in one 8-bit group. */
  predicate IsLatin1(text: string) {
    forall i :: 0 <= i < |text| ==> text[i] as int < 256
  }

  /**
   * `format(ord(c), '08b')`: the code point in binary, left-padded with zeros
   * to eight digits; a code point above 255 keeps all of its digits.
   */
  function FormatCode(c: char): (r: string)
    ensures IsBits(r) && Value(r) == c as int
    ensures |r| >= 8
    ensures |r| == 8 <==> c as int < 256
    ensures |r| == if BitLength(c as int) < 8 then 8 else BitLength(c as int)
    ensures |r| > 8 ==> r[0] == '1'
  {
    var n := c as int;
    var w := if BitLength(n) < 8 then 8 else BitLength(n);
    Pow2Monotone(BitLength(n), w);
    Pow2Eight();
    ValueOfFixed(n, w);
    assert w > 8 ==> Fixed(n, w)[0] == '1' by {
      if w > 8 {
        LeadingOne(n);
      }
    }
    assert BitLength(n) > 8 ==> Pow2(8) <= Pow2(BitLength(n) - 1) by {
      if BitLength(n) > 8 {
        Pow2Monotone(8, BitLength(n) - 1);
      }
    }
    Fixed(n, w)
  }

  /** U+0100 is written in nine digits with no leading zero, as `format(256, '08b')` gives. */
  lemma FormatCodeAbove255()
    ensures FormatCode('\U{100}') == "100000000"
  {
    assert BitLength(1) == 1;
    assert BitLength(2) == 2;
    assert BitLength(4) == 3;
    assert BitLength(8) == 4;
    assert BitLength(16) == 5;
    assert BitLength(32) == 6;
    assert BitLength(64) == 7;
    assert BitLength(128) == 8;
    assert BitLength(256) == 9;
    assert Fixed(1, 1) == "1";
    assert Fixed(2, 2) == "10";
    assert Fixed(4, 3) == "100";
    assert Fixed(8, 4) == "1000";
    assert Fixed(16, 5) == "10000";
    assert Fixed(32, 6) == "100000";
    assert Fixed(64, 7) == "1000000";
    assert Fixed(128, 8) == "10000000";
    assert Fixed(256, 9) == "100000000";
  }

  /** The string `text_to_binary(text)` returns. */
  function EncodeText(text: string): (r: string)
    ensures IsBits(r) && |r| >= 8 * |text|
  {
    if text == [] then "" else FormatCode(text[0]) + EncodeText(text[1..])
  }

  /** `text_to_binary`: append the digits of each character in turn. */
  method TextToBinary(text: string) returns (binary: string)
    ensures binary == EncodeText(text)
  {
    binary := "";
    for i := 0 to |text|
      invariant binary + EncodeText(text[i..]) == EncodeText(text)
    {
      EncodeStep(text, i, binary);
      binary := binary + FormatCode(text[i]);
    }
  }

  /** One pass of the `text_to_binary` loop keeps the digits still to come. */
  lemma EncodeStep(text: string, i: nat, done: string)
    requires i < |text|
    ensures done + EncodeText(text[i..]) == (done + FormatCode(text[i])) + EncodeText(text[i + 1..])
  {
    assert text[i..][1..] == text[i + 1..];
  }

  /** `chr(int(byte, 2))` for one group of eight digits. */
  function ByteChar(byte: string): (c: char)
    requires |byte| == 8 && IsBits(byte)
    ensures c as int == Value(byte)
  {
    Pow2Eight();
    Value(byte) as char
  }

  /** The string `binary_to_text(binary)` returns. */
  function DecodeBits(binary: string): (text: string)
    requires IsBits(binary)
    ensures |text| == |binary| / 8
    ensures IsLatin1(text)
  {
    if |binary| < 8 then ""
    else
      assert IsBits(binary[8..]) by {
        forall i | 0 <= i < |binary| - 8 ensures IsBit(binary[8..][i]) {
          assert binary[8..][i] == binary[i + 8];
        }
      }
      [ByteChar(binary[..8])] + DecodeBits(binary[8..])
  }

  /** `binary_to_text`: step through the string eight digits at a time. */
  method BinaryToText(binary: string) returns (text: string)
    requires IsBits(binary)
    ensures text == DecodeBits(binary)
  {
    text := "";
    var i := 0;
    while i < |binary|
      invariant 0 <= i
      invariant text + DecodeBits(binary[Min(i, |binary|)..]) == DecodeBits(binary)
      decreases |binary| - i
    {
      var byte := binary[i..Min(i + 8, |binary|)];
      DecodeStep(binary, i, text);
      if |byte| == 8 {
        text := text + [ByteChar(byte)];
      }
      i := i + 8;
    }
  }

  /** One pass of the `binary_to_text` loop keeps the characters still to come. */
  lemma DecodeStep(binary: string, i: nat, done: string)
    requires IsBits(binary) && i < |binary|
    ensures IsBits(binary[i..]) && IsBits(binary[Min(i + 8, |binary|)..])
    ensures |binary[i..Min(i + 8, |binary|)]| == 8 ==>
      done + DecodeBits(binary[i..])
        == (done + [ByteChar(binary[i..Min(i + 8, |binary|)])]) + DecodeBits(binary[Min(i + 8, |binary|)..])
    ensures |binary[i..Min(i + 8, |binary|)]| < 8 ==>
      done + DecodeBits(binary[i..]) == done + DecodeBits(binary[Min(i + 8, |binary|)..])
  {
    SliceIsBits(binary, i, |binary|);
    SliceIsBits(binary, Min(i + 8, |binary|), |binary|);
    assert binary[i..|binary|] == binary[i..];
    assert binary[Min(i + 8, |binary|)..|binary|] == binary[Min(i + 8, |binary|)..];
    if i + 8 <= |binary| {
      assert binary[i..][..8] == binary[i..i + 8] && binary[i..][8..] == binary[i + 8..];
    } else {
      assert binary[Min(i + 8, |binary|)..] == [];
    }
  }

  /** Eight digits per character exactly when every code point is below 256. */
  lemma {:induction false} EncodedLength(text: string)
    ensures |EncodeText(text)| == 8 * |text| <==> IsLatin1(text)
  {
    if text != [] {
      EncodedLength(text[1..]);
      Latin1Split(text);
    }
  }

  /** Reading the digits of a concatenation is reading the parts, when the first is whole groups. */
  lemma {:induction false} DecodeAppend(x: string, y: string)
    requires IsBits(x) && IsBits(y) && |x| % 8 == 0
    ensures IsBits(x + y)
    ensures DecodeBits(x + y) == DecodeBits(x) + DecodeBits(y)
  {
    assert IsBits(x + y) by {
      forall i | 0 <= i < |x + y| ensures IsBit((x + y)[i]) {
        if i >= |x| {
          assert (x + y)[i] == y[i - |x|];
        }
      }
    }
    if |x| >= 8 {
      assert (x + y)[..8] == x[..8];
      assert (x + y)[8..] == x[8..] + y;
      DecodeAppend(x[8..], y);
    } else {
      assert x == [];
      assert x + y == y;
    }
  }

  /** One character below 256 reads back from its eight digits. */
  lemma DecodeOneCode(c: char)
    requires c as int < 256
    ensures DecodeBits(FormatCode(c)) == [c]
  {
    var code := FormatCode(c);
    assert code[..8] == code && code[8..] == [];
    assert ByteChar(code) as int == c as int;
  }

  /** `binary_to_text(text_to_binary(text)) == text` for code points below 256. */
  lemma {:induction false} DecodeEncode(text: string)
    requires IsLatin1(text)
    ensures DecodeBits(EncodeText(text)) == text
  {
    if text != [] {
      var head := FormatCode(text[0]);
      var tail := EncodeText(text[1..]);
      Latin1Split(text);
      DecodeEncode(text[1..]);
      DecodeOneCode(text[0]);
      DecodeAppend(head, tail);
      assert EncodeText(text) == head + tail;
      assert text == [text[0]] + text[1..];
    }
  }

  /** Text is below code point 256 exactly when its first character and the rest are. */
  lemma Latin1Split(text: string)
    requires text != []
    ensures IsLatin1(text) <==> text[0] as int < 256 && IsLatin1(text[1..])
  {
    if IsLatin1(text) {
      forall i | 0 <= i < |text[1..]| ensures text[1..][i] as int < 256 {
        assert text[1..][i] == text[i + 1];
      }
    }
    if text[0] as int < 256 && IsLatin1(text[1..]) {
      forall i | 0 <= i < |text| ensures text[i] as int < 256 {
        if i > 0 {
          assert text[i] == text[1..][i - 1];
        }
      }
    }
  }

  /** `text_to_binary(binary_to_text(b))` gives back the whole groups of `b`. */
  lemma {:induction false} EncodeDecode(binary: string)
    requires IsBits(binary)
    ensures EncodeText(DecodeBits(binary)) == binary[..|binary| / 8 * 8]
  {
    if |binary| >= 8 {
      var byte := binary[..8];
      var rest := binary[8..];
      SliceIsBits(binary, 0, 8);
      SliceIsBits(binary, 8, |binary|);
      assert binary[0..8] == byte && binary[8..|binary|] == rest;
      EncodeDecode(rest);
      FormatByte(byte);
      assert DecodeBits(binary) == [ByteChar(byte)] + DecodeBits(rest);
      assert EncodeText(DecodeBits(binary)) == byte + EncodeText(DecodeBits(rest)) by {
        assert DecodeBits(binary)[1..] == DecodeBits(rest);
      }
      WholeGroupsStep(binary);
    }
  }

  /** The whole 8-digit groups of a string of eight or more digits: its first group, then those of the rest. */
  lemma WholeGroupsStep(s: string)
    requires |s| >= 8
    ensures |s[8..]| / 8 * 8 <= |s[8..]|
    ensures s[..|s| / 8 * 8] == s[..8] + s[8..][..|s[8..]| / 8 * 8]
  {
    var n := |s[8..]| / 8 * 8;
    assert |s| / 8 * 8 == 8 + n;
  }

  /** An 8-digit group is written back unchanged from the character it decodes to. */
  lemma FormatByte(byte: string)
    requires IsBits(byte) && |byte| == 8
    ensures FormatCode(ByteChar(byte)) == byte
  {
    FixedOfValue(byte);
    ValueInjective(FormatCode(ByteChar(byte)), byte);
  }

  /** A trailing group shorter than eight digits never contributes a character. */
  lemma {:induction false} DecodeDropsPartialGroup(binary: string)
    requires IsBits(binary)
    ensures IsBits(binary[..|binary| / 8 * 8])
    ensures DecodeBits(binary) == DecodeBits(binary[..|binary| / 8 * 8])
  {
    SliceIsBits(binary, 0, |binary| / 8 * 8);
    if |binary| >= 8 {
      var rest := binary[8..];
      var whole := binary[..|binary| / 8 * 8];
      SliceIsBits(binary, 8, |binary|);
      assert binary[8..|binary|] == rest;
      DecodeDropsPartialGroup(rest);
      WholeGroupsStep(binary);
      assert whole[..8] == binary[..8];
      assert whole[8..] == rest[..|rest| / 8 * 8];
    }
  }

  /** Appending fewer than eight padding digits to whole groups leaves the text unchanged. */
  lemma PaddingIsInvisible(binary: string, pad: string)
    requires IsBits(binary) && IsBits(pad)
    requires |binary| % 8 == 0 && |pad| < 8
    ensures IsBits(binary + pad)
    ensures DecodeBits(binary + pad) == DecodeBits(binary)
  {
    DecodeAppend(binary, pad);
  }
}
