/**
 * The tone constellation of `GibberlinkProtocol.__init__`: the fixed table
 * `freq_map` from each 4-bit symbol to a frequency in Hz, its inverse
 * `reverse_freq_map`, and the fixed frequencies the encoder uses outside it.
 */
module Constellation {
  import opened Bits

  /** `freq_map`: symbol '0000'..'1111' to 800..2300 Hz in steps of 100 Hz. */
  const FreqMap: map<string, int> := map[
    "0000" := 800,
    "0001" := 900,
    "0010" := 1000,
    "0011" := 1100,
    "0100" := 1200,
    "0101" := 1300,
    "0110" := 1400,
    "0111" := 1500,
    "1000" := 1600,
    "1001" := 1700,
    "1010" := 1800,
    "1011" := 1900,
    "1100" := 2000,
    "1101" := 2100,
    "1110" := 2200,
    "1111" := 2300
  ]

  /** `reverse_freq_map = {v: k for k, v in freq_map.items()}`. */
  const ReverseFreqMap: map<int, string> := (FreqMapIsInjective(); Invert(FreqMap))

  /** No two symbols of the table share a frequency. */
  predicate Injective(m: map<string, int>) {
    forall k, k' :: k in m && k' in m && k != k' ==> m[k] != m[k']
  }

  /** The dictionary comprehension `{v: k for k, v in m.items()}` of a one-to-one table. */
  function Invert(m: map<string, int>): (r: map<int, string>)
    requires Injective(m)
  {
    map k | k in m :: m[k] := k
  }

  /** Inverting a one-to-one table gives a table that undoes it, in both directions. */
  lemma InvertIsInverse(m: map<string, int>)
    requires Injective(m)
    ensures Invert(m).Keys == m.Values
    ensures forall k :: k in m ==> m[k] in Invert(m) && Invert(m)[m[k]] == k
    ensures forall f :: f in Invert(m) ==> Invert(m)[f] in m && m[Invert(m)[f]] == f
  {
    var r := Invert(m);
    forall k | k in m ensures m[k] in r && r[m[k]] == k {
    }
    forall f | f in r ensures r[f] in m && m[r[f]] == f {
      var k :| k in m && m[k] == f;
      assert r[f] == k;
    }
  }

  /** Tones at or above this frequency are rendered as beeps, the others as boops. */
  const BeepThreshold: int := 1600

  /** The start-of-message beep and the end-of-message boop. */
  const StartMarkerFreq: int := 2500
  const EndMarkerFreq: int := 600

  /** A 4-bit symbol: four binary digits. */
  predicate IsNibble(k: string) {
    |k| == 4 && IsBits(k)
  }

  function Bit(c: char): nat {
    if c == '1' then 1 else 0
  }

  lemma ValueOfNibble(k: string)
    requires |k| == 4
    ensures Value(k) == 8 * Bit(k[0]) + 4 * Bit(k[1]) + 2 * Bit(k[2]) + Bit(k[3])
  {
    assert k[..3][..2][..1][..0] == [];
    assert Value(k[..1]) == Bit(k[0]);
    assert k[..3][..2] == k[..2] && k[..2][..1] == k[..1] && k[..3][..2][..1] == k[..1];
  }

  /** Every 4-bit symbol is one of the sixteen spelled out in the table. */
  lemma NibbleIsKey(k: string)
    requires IsNibble(k)
    ensures k in FreqMap
  {
    assert k == [k[0], k[1], k[2], k[3]];
    assert IsBit(k[0]) && IsBit(k[1]) && IsBit(k[2]) && IsBit(k[3]);
    if k[0] == '0' {
      if k[1] == '0' {
        if k[2] == '0' {
          assert k == "0000" || k == "0001";
        } else {
          assert k == "0010" || k == "0011";
        }
      } else {
        if k[2] == '0' {
          assert k == "0100" || k == "0101";
        } else {
          assert k == "0110" || k == "0111";
        }
      }
    } else {
      if k[1] == '0' {
        if k[2] == '0' {
          assert k == "1000" || k == "1001";
        } else {
          assert k == "1010" || k == "1011";
        }
      } else {
        if k[2] == '0' {
          assert k == "1100" || k == "1101";
        } else {
          assert k == "1110" || k == "1111";
        }
      }
    }
  }

  /** The keys of `freq_map` are exactly the 4-bit symbols. */
  lemma FreqMapKeys()
    ensures forall k :: k in FreqMap <==> IsNibble(k)
  {
    forall k | IsNibble(k) ensures k in FreqMap {
      NibbleIsKey(k);
    }
  }

  /** A function one-to-one on 0..n-1 takes n distinct values there. */
  lemma {:induction false} ImageSize<T>(f: nat -> T, n: nat)
    requires forall i, j :: 0 <= i < j < n ==> f(i) != f(j)
    ensures |set i | 0 <= i < n :: f(i)| == n
  {
    if n > 0 {
      ImageSize(f, n - 1);
      var smaller := set i | 0 <= i < n - 1 :: f(i);
      assert (set i | 0 <= i < n :: f(i)) == smaller + {f(n - 1)};
      assert f(n - 1) !in smaller;
    }
  }

  /** The symbols of the table, listed by their value. */
  function Symbol(i: nat): string {
    Fixed(i, 4)
  }

  function SymbolFreq(i: nat): int {
    800 + 100 * i
  }

  lemma KeysAreSymbols()
    ensures FreqMap.Keys == set i | 0 <= i < 16 :: Symbol(i)
  {
    FreqMapKeys();
    forall k | k in FreqMap ensures k in set i | 0 <= i < 16 :: Symbol(i) {
      FixedOfValue(k);
      assert Value(k) < Pow2(4) == 16;
      assert k == Symbol(Value(k));
    }
    forall i | 0 <= i < 16 ensures Symbol(i) in FreqMap {
      NibbleIsKey(Fixed(i, 4));
    }
  }

  lemma ValuesAreSymbolFreqs()
    ensures FreqMap.Values == set i | 0 <= i < 16 :: SymbolFreq(i)
  {
    FreqMapIsLinear();
    FreqMapKeys();
    LinearTableValues(FreqMap);
  }

  lemma LinearTableValues(m: map<string, int>)
    requires forall k :: k in m <==> IsNibble(k)
    requires forall k :: k in m ==> m[k] == 800 + 100 * Value(k)
    ensures m.Values == set i | 0 <= i < 16 :: SymbolFreq(i)
  {
    forall f | f in m.Values ensures f in set i | 0 <= i < 16 :: SymbolFreq(i) {
      var k :| k in m && m[k] == f;
      assert Value(k) < Pow2(4) == 16;
      assert f == SymbolFreq(Value(k));
    }
    forall i | 0 <= i < 16 ensures SymbolFreq(i) in m.Values {
      var k := Fixed(i, 4);
      ValueOfFixed(i, 4);
      assert k in m && m[k] == SymbolFreq(i);
    }
  }

  lemma SymbolsDistinct()
    ensures forall i, j :: 0 <= i < j < 16 ==> Symbol(i) != Symbol(j)
  {
    forall i, j | 0 <= i < j < 16 ensures Symbol(i) != Symbol(j) {
      ValueOfFixed(i, 4);
      ValueOfFixed(j, 4);
    }
  }

  lemma SizeFromImages(m: map<string, int>)
    requires m.Keys == set i | 0 <= i < 16 :: Symbol(i)
    requires m.Values == set i | 0 <= i < 16 :: SymbolFreq(i)
    ensures |m| == 16 && |m.Values| == 16
  {
    SymbolsDistinct();
    var symbol: nat -> string := Symbol;
    var freq: nat -> int := SymbolFreq;
    ImageSize(symbol, 16);
    ImageSize(freq, 16);
    assert m.Keys == set i | 0 <= i < 16 :: symbol(i);
    assert m.Values == set i | 0 <= i < 16 :: freq(i);
    assert |m| == |m.Keys|;
  }

  /** The table has sixteen entries and takes sixteen distinct frequencies. */
  lemma FreqMapSize()
    ensures |FreqMap| == 16 && |FreqMap.Values| == 16
  {
    KeysAreSymbols();
    ValuesAreSymbolFreqs();
    SizeFromImages(FreqMap);
  }

  /** Each symbol `k` sounds at 800 + 100 * int(k, 2) Hz. */
  lemma FreqMapIsLinear()
    ensures forall k :: k in FreqMap ==> FreqMap[k] == 800 + 100 * Value(k)
  {
    forall k | k in FreqMap ensures FreqMap[k] == 800 + 100 * Value(k) {
      ValueOfNibble(k);
    }
  }

  /** All sixteen frequencies are distinct and lie in 800..2300 Hz. */
  lemma FreqMapIsInjective()
    ensures forall k :: k in FreqMap ==> 800 <= FreqMap[k] <= 2300
    ensures Injective(FreqMap)
  {
    FreqMapIsLinear();
    FreqMapKeys();
    forall k, k' | k in FreqMap && k' in FreqMap && FreqMap[k] == FreqMap[k']
      ensures k == k'
    {
      ValueInjective(k, k');
    }
    forall k | k in FreqMap ensures 800 <= FreqMap[k] <= 2300 {
      assert Value(k) < Pow2(4) == 16;
    }
  }

  /** `reverse_freq_map` undoes `freq_map`, and `freq_map` undoes `reverse_freq_map`. */
  lemma ReverseIsInverse()
    ensures ReverseFreqMap.Keys == FreqMap.Values
    ensures forall k :: k in FreqMap ==> FreqMap[k] in ReverseFreqMap && ReverseFreqMap[FreqMap[k]] == k
    ensures forall f :: f in ReverseFreqMap ==> ReverseFreqMap[f] in FreqMap && FreqMap[ReverseFreqMap[f]] == f
  {
    FreqMapIsInjective();
    InvertIsInverse(FreqMap);
  }

  lemma OutsideTable(m: map<string, int>, r: map<int, string>, f: int)
    requires forall k :: k in m ==> 800 <= m[k] <= 2300
    requires r.Keys == m.Values
    requires f < 800 || 2300 < f
    ensures f !in r
  {
  }

  /** The start and end markers are not symbol frequencies: they sit above and below the table. */
  lemma MarkersOutsideConstellation()
    ensures StartMarkerFreq !in ReverseFreqMap && EndMarkerFreq !in ReverseFreqMap
    ensures forall k :: k in FreqMap ==> EndMarkerFreq < FreqMap[k] < StartMarkerFreq
  {
    FreqMapIsInjective();
    ReverseIsInverse();
    OutsideTable(FreqMap, ReverseFreqMap, StartMarkerFreq);
    OutsideTable(FreqMap, ReverseFreqMap, EndMarkerFreq);
  }

  /** A symbol's tone is a beep exactly when its leading bit is '1'. */
  lemma BeepIffLeadingOne()
    ensures forall k :: k in FreqMap ==> (FreqMap[k] >= BeepThreshold <==> k[0] == '1')
  {
    FreqMapIsLinear();
    FreqMapKeys();
    LinearTableBeeps(FreqMap);
  }

  lemma LinearTableBeeps(m: map<string, int>)
    requires forall k :: k in m ==> |k| == 4
    requires forall k :: k in m ==> m[k] == 800 + 100 * Value(k)
    ensures forall k :: k in m ==> (m[k] >= BeepThreshold <==> k[0] == '1')
  {
    forall k | k in m ensures m[k] >= BeepThreshold <==> k[0] == '1' {
      ValueOfNibble(k);
    }
  }
}
