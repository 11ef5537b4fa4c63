/**
 * The framing step of `encode_to_gibberlink`: the sync header `10101010` is
 * put in front of the payload bits, and '0' is appended until the length is a
 * multiple of four, so that the string splits into whole 4-bit symbols.
 */
module Framer {
  import opened Bits
  import opened BitCodec

  const SyncHeader: string := "10101010"

  /**
   * The padding loop `while len(full_binary) % 4 != 0: full_binary += '0'`,
   * one appended digit per step.
   */
  function PadToNibble(s: string): (r: string)
    ensures |r| % 4 == 0 && |s| <= |r| < |s| + 4
    ensures r[..|s|] == s
    ensures forall i :: |s| <= i < |r| ==> r[i] == '0'
    decreases (4 - |s| % 4) % 4
  {
    if |s| % 4 == 0 then s
    else
      var r := PadToNibble(s + "0");
      assert r[..|s|] == r[..|s| + 1][..|s|];
      r
  }

  /** `full_binary` after the padding loop: the framed form of the payload bits. */
  function Frame(payload: string): (r: string)
    ensures |SyncHeader| + |payload| <= |r| < |SyncHeader| + |payload| + 4
    ensures |r| % 4 == 0
    ensures r[..|SyncHeader|] == SyncHeader
    ensures r[|SyncHeader|..|SyncHeader| + |payload|] == payload
    ensures forall i :: |SyncHeader| + |payload| <= i < |r| ==> r[i] == '0'
  {
    var r := PadToNibble(SyncHeader + payload);
    assert r[..|SyncHeader|] == r[..|SyncHeader| + |payload|][..|SyncHeader|];
    assert r[|SyncHeader|..|SyncHeader| + |payload|] == r[..|SyncHeader| + |payload|][|SyncHeader|..];
    r
  }

  /** The framed string is binary digits whenever the payload is. */
  lemma FrameIsBits(payload: string)
    requires IsBits(payload)
    ensures IsBits(Frame(payload))
  {
    var r := Frame(payload);
    forall i | 0 <= i < |r| ensures IsBit(r[i]) {
      if i < |SyncHeader| {
        assert r[i] == r[..|SyncHeader|][i];
      } else if i < |SyncHeader| + |payload| {
        assert r[i] == r[|SyncHeader|..|SyncHeader| + |payload|][i - |SyncHeader|];
      }
    }
  }

  /** When the payload is already whole symbols, the loop appends nothing. */
  lemma FrameWithoutPadding(payload: string)
    requires |payload| % 4 == 0
    ensures Frame(payload) == SyncHeader + payload
  {
    var r := Frame(payload);
    assert |r| == |SyncHeader| + |payload|;
    assert r == r[..|SyncHeader|] + r[|SyncHeader|..|SyncHeader| + |payload|];
  }

  /** Text with code points below 256 is framed as the header followed by its digits, unpadded. */
  lemma TextFrameIsUnpadded(text: string)
    requires IsLatin1(text)
    ensures Frame(EncodeText(text)) == SyncHeader + EncodeText(text)
  {
    WholeSymbols(text);
    FrameWithoutPadding(EncodeText(text));
  }

  /** The digits of text with code points below 256 split into whole 4-bit symbols. */
  lemma WholeSymbols(text: string)
    requires IsLatin1(text)
    ensures |EncodeText(text)| % 4 == 0
  {
    EncodedLength(text);
    WholeBytes(|text|);
  }

  lemma WholeBytes(k: nat)
    ensures (8 * k) % 4 == 0
  {
    assert 8 * k == 4 * (2 * k);
  }
}
