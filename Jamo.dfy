/**
 * The constant jamo tables of the stroke-count calculator: how many strokes
 * each compatibility jamo letter takes, and the index-to-letter tables that
 * decode the three parts of a precomposed Hangul syllable.
 */
module Jamo {

  datatype Option<T> = None | Some(value: T)

  /**
   * The stroke table: the stroke count of each compatibility jamo letter that
   * has an entry, None for any other character (a missing key).
   */
  function JaemoStrokes(c: char): (r: Option<nat>)
    ensures r.Some? ==> 1 <= r.value <= 8
  {
    match c
    case 'ㄱ' => Some(2) case 'ㄲ' => Some(4) case 'ㄴ' => Some(2) case 'ㄷ' => Some(3) case 'ㄸ' => Some(6)
    case 'ㄹ' => Some(5) case 'ㅁ' => Some(4) case 'ㅂ' => Some(4) case 'ㅃ' => Some(8) case 'ㅅ' => Some(2)
    case 'ㅆ' => Some(4) case 'ㅇ' => Some(1) case 'ㅈ' => Some(3) case 'ㅉ' => Some(6) case 'ㅊ' => Some(4)
    case 'ㅋ' => Some(3) case 'ㅌ' => Some(4) case 'ㅍ' => Some(4) case 'ㅎ' => Some(3) case 'ㅏ' => Some(2)
    case 'ㅐ' => Some(3) case 'ㅑ' => Some(3) case 'ㅒ' => Some(4) case 'ㅓ' => Some(2) case 'ㅔ' => Some(3)
    case 'ㅕ' => Some(3) case 'ㅖ' => Some(4) case 'ㅗ' => Some(2) case 'ㅘ' => Some(4) case 'ㅙ' => Some(5)
    case 'ㅚ' => Some(3) case 'ㅛ' => Some(3) case 'ㅜ' => Some(2) case 'ㅝ' => Some(4) case 'ㅞ' => Some(5)
    case 'ㅟ' => Some(3) case 'ㅠ' => Some(3) case 'ㅡ' => Some(1) case 'ㅢ' => Some(2) case 'ㅣ' => Some(1)
    case _ => None
  }

  /** The 19 initial consonants, in syllable-index order. */
  const InitialCompat: seq<char> :=
    ['ㄱ', 'ㄲ', 'ㄴ', 'ㄷ', 'ㄸ', 'ㄹ', 'ㅁ', 'ㅂ', 'ㅃ', 'ㅅ', 'ㅆ', 'ㅇ', 'ㅈ', 'ㅉ', 'ㅊ', 'ㅋ', 'ㅌ', 'ㅍ', 'ㅎ']

  /** The 21 medial vowels, in syllable-index order. */
  const MedialCompat: seq<char> :=
    ['ㅏ', 'ㅐ', 'ㅑ', 'ㅒ', 'ㅓ', 'ㅔ', 'ㅕ', 'ㅖ', 'ㅗ', 'ㅘ', 'ㅙ', 'ㅚ', 'ㅛ', 'ㅜ', 'ㅝ', 'ㅞ', 'ㅟ', 'ㅠ', 'ㅡ', 'ㅢ', 'ㅣ']

  /**
   * The 28 finals, in syllable-index order: the empty string for "no final",
   * otherwise a one-letter string. A consonant cluster such as 'ㄳ' is a single
   * compatibility letter of its own, not the two letters it is made of.
   */
  const FinalCompat: seq<string> :=
    ["", "ㄱ", "ㄲ", "ㄳ", "ㄴ", "ㄵ", "ㄶ", "ㄷ", "ㄹ", "ㄺ", "ㄻ", "ㄼ", "ㄽ", "ㄾ", "ㄿ", "ㅀ",
     "ㅁ", "ㅂ", "ㅄ", "ㅅ", "ㅆ", "ㅇ", "ㅈ", "ㅊ", "ㅋ", "ㅌ", "ㅍ", "ㅎ"]

  /** The indices of FinalCompat whose letter is a two-consonant cluster. */
  const ClusterFinals: set<nat> := {3, 5, 6, 9, 10, 11, 12, 13, 14, 15, 18}

  /** A table lookup that falls back to 0 for a letter without an entry. */
  function StrokeOrZero(c: char): (n: nat)
    ensures n <= 8
    ensures n == 0 <==> JaemoStrokes(c).None?
  {
    match JaemoStrokes(c)
    case Some(n) => n
    case None => 0
  }

  /** Every initial has a stroke entry, between 1 ('ㅇ') and 8 ('ㅃ'). */
  lemma InitialEntries(i: nat)
    requires i < |InitialCompat|
    ensures |InitialCompat| == 19
    ensures JaemoStrokes(InitialCompat[i]).Some?
    ensures 1 <= JaemoStrokes(InitialCompat[i]).value <= 8
  {
  }

  /** Every medial has a stroke entry, between 1 ('ㅡ', 'ㅣ') and 5 ('ㅙ', 'ㅞ'). */
  lemma MedialEntries(i: nat)
    requires i < |MedialCompat|
    ensures |MedialCompat| == 21
    ensures JaemoStrokes(MedialCompat[i]).Some?
    ensures 1 <= JaemoStrokes(MedialCompat[i]).value <= 5
  {
  }

  /** Every final is the empty string (index 0 only) or a single letter. */
  lemma FinalShapes(j: nat)
    requires j < |FinalCompat|
    ensures |FinalCompat| == 28
    ensures (j == 0) == (FinalCompat[j] == "")
    ensures j != 0 ==> |FinalCompat[j]| == 1
  {
  }

  /** The cluster finals are letters of their own, without a stroke entry. */
  lemma ClusterFinalEntries(j: nat)
    requires j in ClusterFinals
    ensures 0 < j < |FinalCompat| && |FinalCompat[j]| == 1
    ensures JaemoStrokes(FinalCompat[j][0]) == None
  {
    // The eleven entries are checked in two halves; one proof over all of them is several times as costly.
    if j <= 10 {
      EarlyClusterFinalEntries(j);
    } else {
      LateClusterFinalEntries(j);
    }
  }

  lemma EarlyClusterFinalEntries(j: nat)
    requires j == 3 || j == 5 || j == 6 || j == 9 || j == 10
    ensures 0 < j < |FinalCompat| && |FinalCompat[j]| == 1
    ensures JaemoStrokes(FinalCompat[j][0]) == None
  {
  }

  lemma LateClusterFinalEntries(j: nat)
    requires j == 11 || j == 12 || j == 13 || j == 14 || j == 15 || j == 18
    ensures 0 < j < |FinalCompat| && |FinalCompat[j]| == 1
    ensures JaemoStrokes(FinalCompat[j][0]) == None
  {
  }

  /** The other non-empty finals are single consonants with an entry of 1 to 5 strokes. */
  lemma ConsonantFinalEntries(j: nat)
    requires 0 < j < |FinalCompat| && j !in ClusterFinals
    ensures |FinalCompat[j]| == 1
    ensures JaemoStrokes(FinalCompat[j][0]).Some?
    ensures 1 <= JaemoStrokes(FinalCompat[j][0]).value <= 5
  {
  }
}
