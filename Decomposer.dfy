/**
 * The stroke value of one character: a precomposed Hangul syllable is split
 * arithmetically into its initial, medial and final jamo (section 3.12,
 * "Conjoining Jamo Behavior", of The Unicode Standard), and the stroke counts
 * of the three parts are added up. Any other character is worth 0.
 */
module Decomposer {
  import opened Jamo

  /** First code point of the precomposed Hangul syllable block, U+AC00. */
  const SBase: int := 0xAC00
  /** Number of initials, medials and finals (the final count includes "no final"). */
  const LCount: nat := 19
  const VCount: nat := 21
  const TCount: nat := 28
  /** Syllables per initial, and syllables in the whole block. */
  const NCount: nat := VCount * TCount
  const SCount: nat := LCount * NCount

  /** The character is one of the 11172 syllables U+AC00..U+D7A3. */
  predicate IsSyllable(ch: char): (b: bool)
    ensures b <==> 0 <= ch as int - SBase < SCount
  {
    0xAC00 <= ch as int <= 0xD7A3
  }

  /** The three table indices of a syllable. */
  datatype Parts = Parts(initial: nat, medial: nat, final: nat)

  predicate ValidParts(p: Parts)
  {
    p.initial < LCount && p.medial < VCount && p.final < TCount
  }

  /** The offset of a syllable from SBase on which the block is laid out. */
  function Compose(p: Parts): int
  {
    p.initial * NCount + p.medial * TCount + p.final
  }

  /** Splits a syllable offset with two integer divisions, by 588 and then by 28. */
  function Decompose(code: int): (p: Parts)
    requires 0 <= code < SCount
    ensures ValidParts(p)
    ensures Compose(p) == code
  {
    var cho, rem := code / NCount, code % NCount;
    Parts(cho, rem / TCount, rem % TCount)
  }

  /** Decomposing the offset of any valid triple of indices gives that triple back. */
  lemma DecomposeCompose(p: Parts)
    requires ValidParts(p)
    ensures 0 <= Compose(p) < SCount
    ensures Decompose(Compose(p)) == p
  {
  }

  /** Stroke counts of the parts. Every initial and medial has an entry. */
  function InitialStroke(i: nat): (n: nat)
    requires i < LCount
    ensures 1 <= n <= 8
  {
    InitialEntries(i);
    JaemoStrokes(InitialCompat[i]).value
  }

  function MedialStroke(i: nat): (n: nat)
    requires i < VCount
    ensures 1 <= n <= 5
  {
    MedialEntries(i);
    JaemoStrokes(MedialCompat[i]).value
  }

  /** The sum of the entries of the letters of a string, each 0 when it has none. */
  function SumStrokes(s: string): (n: nat)
    ensures s == "" ==> n == 0
    ensures |s| == 1 ==> n == StrokeOrZero(s[0])
    ensures n <= 8 * |s|
  {
    if s == "" then 0
    else
      assert |s| == 1 ==> s[..0] == "";
      SumStrokes(s[..|s| - 1]) + StrokeOrZero(s[|s| - 1])
  }

  /**
   * What the final of index j adds: the letters of FinalCompat[j], each
   * looked up with a default of 0. That is the entry of its letter when the
   * letter is one of the sixteen single consonants, and 0 for the empty final
   * and for every cluster: a cluster is one letter without an entry, so its
   * two consonants are not added.
   */
  function FinalStroke(j: nat): (n: nat)
    requires j < TCount
    ensures j == 0 || j in ClusterFinals ==> n == 0
    ensures j != 0 && j !in ClusterFinals ==> n == JaemoStrokes(FinalCompat[j][0]).value && 1 <= n <= 5
  {
    FinalCases(j);
    SumStrokes(FinalCompat[j])
  }

  /** The case analysis behind the contract of FinalStroke, one table lemma per kind of final.
   * Dafny can find the table facts unaided, but at about ten times the cost. */
  lemma FinalCases(j: nat)
    requires j < TCount
    ensures j == 0 || j in ClusterFinals ==> SumStrokes(FinalCompat[j]) == 0
    ensures j != 0 && j !in ClusterFinals ==>
      && |FinalCompat[j]| == 1
      && SumStrokes(FinalCompat[j]) == JaemoStrokes(FinalCompat[j][0]).value
      && 1 <= SumStrokes(FinalCompat[j]) <= 5
  {
    FinalShapes(j);
    if j in ClusterFinals {
      ClusterFinalEntries(j);
    } else if j != 0 {
      ConsonantFinalEntries(j);
    }
  }

  /**
   * The stroke value of a character: 0 outside the syllable block, otherwise
   * the strokes of its initial, its medial and its final.
   */
  function StrokeValue(ch: char): (n: nat)
    ensures !IsSyllable(ch) ==> n == 0
    ensures IsSyllable(ch) ==> 2 <= n <= 18
  {
    var code := ch as int - SBase;
    if code < 0 || code > 11171 then 0
    else
      var p := Decompose(code);
      InitialStroke(p.initial) + MedialStroke(p.medial) + FinalStroke(p.final)
  }

  /**
   * The stroke value of the syllable built from any valid triple of indices
   * is the sum of the strokes of those three parts.
   */
  lemma StrokeValueOfParts(ch: char, p: Parts)
    requires ValidParts(p) && ch as int - SBase == Compose(p)
    ensures StrokeValue(ch) == InitialStroke(p.initial) + MedialStroke(p.medial) + FinalStroke(p.final)
  {
    DecomposeCompose(p);
  }

  /** The lower bound 2 is reached by '이' (ㅇ, ㅣ, no final). */
  lemma LowestStrokeValue()
    ensures StrokeValue('이') == 2
  {
    assert '이' as int - SBase == Compose(Parts(11, 20, 0));
    StrokeValueOfParts('이', Parts(11, 20, 0));
    LowestParts();
  }

  lemma LowestParts()
    ensures InitialStroke(11) + MedialStroke(20) + FinalStroke(0) == 2
  {
  }

  /** The upper bound 18 is reached by '뾀' (ㅃ, ㅙ, final ㄹ). */
  lemma HighestStrokeValue()
    ensures StrokeValue('뾀') == 18
  {
    assert '뾀' as int - SBase == Compose(Parts(8, 10, 8));
    StrokeValueOfParts('뾀', Parts(8, 10, 8));
    HighestParts();
  }

  lemma HighestParts()
    ensures InitialStroke(8) + MedialStroke(10) + FinalStroke(8) == 18
  {
  }

  /** '값' (ㄱ, ㅏ, cluster ㅄ) is worth exactly as much as '가' (ㄱ, ㅏ, no final). */
  lemma ClusterFinalAddsNothing()
    ensures StrokeValue('값') == StrokeValue('가') == 4
  {
    assert '값' as int - SBase == Compose(Parts(0, 0, 18));
    assert '가' as int - SBase == Compose(Parts(0, 0, 0));
    StrokeValueOfParts('값', Parts(0, 0, 18));
    StrokeValueOfParts('가', Parts(0, 0, 0));
    ClusterParts();
  }

  lemma ClusterParts()
    ensures InitialStroke(0) + MedialStroke(0) + FinalStroke(18) == 4
    ensures FinalStroke(0) == FinalStroke(18) == 0
  {
  }

  /**
   * The per-character computation as the program runs it: the initial and
   * medial entries first, then a loop over the letters of the final.
   */
  method SyllableStroke(ch: char) returns (total: nat)
    ensures total == StrokeValue(ch)
  {
    var code := ch as int - SBase;
    if code < 0 || code > 11171 {
      return 0;
    }
    var cho, rem := code / NCount, code % NCount;
    var jung, jong := rem / TCount, rem % TCount;
    StrokeValueOfParts(ch, Parts(cho, jung, jong));
    InitialEntries(cho);
    MedialEntries(jung);
    FinalShapes(jong);
    total := JaemoStrokes(InitialCompat[cho]).value + JaemoStrokes(MedialCompat[jung]).value;
    assert total == InitialStroke(cho) + MedialStroke(jung);
    var fin := FinalCompat[jong];
    ghost var base := total;
    for k := 0 to |fin|
      invariant total == base + SumStrokes(fin[..k])
    {
      assert fin[..k + 1][..k] == fin[..k];
      total := total + StrokeOrZero(fin[k]);
    }
    assert fin[..|fin|] == fin;
  }
}
