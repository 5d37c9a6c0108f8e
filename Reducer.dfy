/**
 * The compatibility score of two names: the stroke values of the Hangul
 * syllables of both names, in order, are folded by adding neighbours modulo
 * 100 until at most two values remain, and those give the two digits.
 */
module Reducer {
  import opened Decomposer

  /** The syllables of s, in the order they occur; every other character is dropped. */
  function Syllables(s: string): (t: string)
    ensures |t| <= |s|
    ensures forall k :: 0 <= k < |t| ==> IsSyllable(t[k])
  {
    if s == "" then ""
    else Syllables(s[..|s| - 1]) + (if IsSyllable(s[|s| - 1]) then [s[|s| - 1]] else "")
  }

  /**
   * The stroke values of the syllables of s, one per syllable, in order. A
   * character outside the syllable block is dropped, not counted as 0.
   */
  function Strokes(s: string): (r: seq<nat>)
    ensures |r| == |Syllables(s)|
    ensures forall k :: 0 <= k < |r| ==> 2 <= r[k] <= 18
  {
    var t := Syllables(s);
    seq(|t|, k requires 0 <= k < |t| => StrokeValue(t[k]))
  }

  /** The indices of the syllables of s, in increasing order. */
  ghost function SyllablePositions(s: string): (ps: seq<nat>)
  {
    if s == "" then []
    else SyllablePositions(s[..|s| - 1]) + (if IsSyllable(s[|s| - 1]) then [|s| - 1] else [])
  }

  /**
   * The syllable positions of s are indices of s, strictly increasing, and an
   * index is a position exactly when the character there is a syllable.
   */
  lemma {:induction false} PositionsAreTheSyllables(s: string)
    ensures var ps := SyllablePositions(s);
      && (forall k :: 0 <= k < |ps| ==> ps[k] < |s|)
      && (forall k, l :: 0 <= k < l < |ps| ==> ps[k] < ps[l])
      && (forall i :: 0 <= i < |s| ==> (IsSyllable(s[i]) <==> i in ps))
  {
    if s != "" {
      var t := s[..|s| - 1];
      PositionsAreTheSyllables(t);
      forall i | 0 <= i < |t|
        ensures s[i] == t[i]
      {
      }
    }
  }

  /** The k-th kept syllable is the character at the k-th syllable position. */
  lemma {:induction false} SyllablesAtPositions(s: string)
    ensures var ps := SyllablePositions(s);
      && |Syllables(s)| == |ps|
      && (forall k :: 0 <= k < |ps| ==> ps[k] < |s| && Syllables(s)[k] == s[ps[k]])
  {
    if s != "" {
      var n := |s|;
      var t := s[..n - 1];
      SyllablesAtPositions(t);
      var ps, st := SyllablePositions(t), Syllables(t);
      var ps', st' := SyllablePositions(s), Syllables(s);
      if IsSyllable(s[n - 1]) {
        assert ps' == ps + [n - 1];
        assert st' == st + [s[n - 1]];
      } else {
        assert ps' == ps;
        assert st' == st;
      }
      forall k | 0 <= k < |ps'|
        ensures ps'[k] < n && st'[k] == s[ps'[k]]
      {
        if k < |ps| {
          assert ps'[k] == ps[k] && st'[k] == st[k];
          assert s[ps[k]] == t[ps[k]];
        }
      }
    }
  }

  /**
   * Strokes keeps exactly the syllables of s, in their original order: its
   * k-th value is the stroke value of the k-th syllable position, the
   * positions increase strictly, and an index is a position exactly when the
   * character there is a syllable.
   */
  lemma StrokesFilterInOrder(s: string)
    ensures var ps := SyllablePositions(s);
      && |Strokes(s)| == |ps|
      && (forall k :: 0 <= k < |ps| ==> ps[k] < |s| && Strokes(s)[k] == StrokeValue(s[ps[k]]))
      && (forall k, l :: 0 <= k < l < |ps| ==> ps[k] < ps[l])
      && (forall i :: 0 <= i < |s| ==> (IsSyllable(s[i]) <==> i in ps))
  {
    PositionsAreTheSyllables(s);
    SyllablesAtPositions(s);
  }

  /** There are no syllables, and so no stroke values, exactly when no character of s is a syllable. */
  lemma {:induction false} NoStrokesIffNoSyllables(s: string)
    ensures Syllables(s) == "" <==> forall i :: 0 <= i < |s| ==> !IsSyllable(s[i])
    ensures Strokes(s) == [] <==> forall i :: 0 <= i < |s| ==> !IsSyllable(s[i])
  {
    if s != "" {
      var t := s[..|s| - 1];
      NoStrokesIffNoSyllables(t);
      forall i | 0 <= i < |t|
        ensures s[i] == t[i]
      {
      }
    }
  }

  /** Filtering distributes over concatenation: the syllables of a come first, then those of b. */
  lemma {:induction false} SyllablesConcat(a: string, b: string)
    ensures Syllables(a + b) == Syllables(a) + Syllables(b)
  {
    if b == "" {
      assert a + b == a;
    } else {
      var b' := b[..|b| - 1];
      assert (a + b)[..|a + b| - 1] == a + b';
      SyllablesConcat(a, b');
    }
  }

  /** The stroke values of name1 come first, then those of name2. */
  lemma StrokesConcat(a: string, b: string)
    ensures Strokes(a + b) == Strokes(a) + Strokes(b)
  {
    SyllablesConcat(a, b);
    var ta, tb := Syllables(a), Syllables(b);
    forall k | 0 <= k < |ta| + |tb|
      ensures Strokes(a + b)[k] == (Strokes(a) + Strokes(b))[k]
    {
      if k < |ta| {
        assert (ta + tb)[k] == ta[k];
      } else {
        assert (ta + tb)[k] == tb[k - |ta|];
      }
    }
  }

  /**
   * The syllable positions are the only strictly increasing sequence of
   * indices that holds exactly the indices of the syllables.
   */
  lemma {:induction false} PositionsExactly(s: string, qs: seq<nat>)
    requires forall k :: 0 <= k < |qs| ==> qs[k] < |s|
    requires forall k, l :: 0 <= k < l < |qs| ==> qs[k] < qs[l]
    requires forall i :: 0 <= i < |s| ==> (IsSyllable(s[i]) <==> i in qs)
    ensures SyllablePositions(s) == qs
  {
    if s == "" {
      IncreasingBound(qs, 0);
    } else {
      var n := |s|;
      var t := s[..n - 1];
      if IsSyllable(s[n - 1]) {
        LastPosition(s, qs);
        var qs' := qs[..|qs| - 1];
        DropLastPosition(s, qs);
        PositionsExactly(t, qs');
        assert qs == qs' + [n - 1];
      } else {
        forall i | 0 <= i < |t|
          ensures s[i] == t[i] && (i in qs <==> IsSyllable(t[i]))
        {
        }
        forall k | 0 <= k < |qs|
          ensures qs[k] < n - 1
        {
          assert qs[k] in qs;
        }
        PositionsExactly(t, qs);
      }
    }
  }

  /** When the last character is a syllable, the last position is the last index. */
  lemma LastPosition(s: string, qs: seq<nat>)
    requires s != "" && IsSyllable(s[|s| - 1])
    requires forall k :: 0 <= k < |qs| ==> qs[k] < |s|
    requires forall k, l :: 0 <= k < l < |qs| ==> qs[k] < qs[l]
    requires forall i :: 0 <= i < |s| ==> (IsSyllable(s[i]) <==> i in qs)
    ensures |qs| > 0 && qs[|qs| - 1] == |s| - 1
  {
    assert |s| - 1 in qs;
    var k :| 0 <= k < |qs| && qs[k] == |s| - 1;
    BelowLast(qs, k);
  }

  /** A strictly increasing sequence of naturals below n has at most n elements. */
  lemma {:induction false} IncreasingBound(qs: seq<nat>, n: nat)
    requires forall k :: 0 <= k < |qs| ==> qs[k] < n
    requires forall k, l :: 0 <= k < l < |qs| ==> qs[k] < qs[l]
    ensures |qs| <= n
  {
    if |qs| > 0 {
      assert qs[|qs| - 1] < n;
      var qs' := qs[..|qs| - 1];
      forall k | 0 <= k < |qs'|
        ensures qs'[k] < n - 1
      {
        assert qs'[k] == qs[k] < qs[|qs| - 1];
      }
      IncreasingBound(qs', n - 1);
    }
  }

  /** In a strictly increasing sequence every earlier element is below the last. */
  lemma BelowLast(qs: seq<nat>, k: nat)
    requires forall k, l :: 0 <= k < l < |qs| ==> qs[k] < qs[l]
    requires k < |qs|
    ensures k < |qs| - 1 ==> qs[k] < qs[|qs| - 1]
  {
  }

  /** Dropping the last index from both leaves the same relation between them. */
  lemma DropLastPosition(s: string, qs: seq<nat>)
    requires |qs| > 0 && qs[|qs| - 1] == |s| - 1
    requires forall k, l :: 0 <= k < l < |qs| ==> qs[k] < qs[l]
    requires forall i :: 0 <= i < |s| ==> (IsSyllable(s[i]) <==> i in qs)
    ensures var t, qs' := s[..|s| - 1], qs[..|qs| - 1];
      && (forall k :: 0 <= k < |qs'| ==> qs'[k] < |t|)
      && (forall k, l :: 0 <= k < l < |qs'| ==> qs'[k] < qs'[l])
      && (forall i :: 0 <= i < |t| ==> (IsSyllable(t[i]) <==> i in qs'))
  {
    var t, qs' := s[..|s| - 1], qs[..|qs| - 1];
    forall k | 0 <= k < |qs'|
      ensures qs'[k] < |t|
    {
      assert qs'[k] == qs[k] < qs[|qs| - 1];
    }
    forall i | 0 <= i < |t|
      ensures IsSyllable(t[i]) <==> i in qs'
    {
      assert t[i] == s[i];
      if i in qs {
        var k :| 0 <= k < |qs| && qs[k] == i;
        assert k < |qs| - 1 && qs'[k] == i;
      }
    }
  }

  /** When every character is a syllable, all are kept. */
  lemma {:induction false} AllSyllablesKept(s: string)
    requires forall i :: 0 <= i < |s| ==> IsSyllable(s[i])
    ensures Syllables(s) == s
  {
    if s != "" {
      var t := s[..|s| - 1];
      AllSyllablesKept(t);
      assert s == t + [s[|s| - 1]];
    }
  }

  /** When every character is a syllable, there is one stroke value per character. */
  lemma StrokesOfSyllables(s: string)
    requires forall i :: 0 <= i < |s| ==> IsSyllable(s[i])
    ensures |Strokes(s)| == |s|
    ensures forall i :: 0 <= i < |s| ==> Strokes(s)[i] == StrokeValue(s[i])
  {
    AllSyllablesKept(s);
  }

  /**
   * Removing a character outside the syllable block from anywhere in a
   * string changes neither its syllables nor its stroke values.
   */
  lemma NonSyllableIsDropped(x: string, c: char, y: string)
    requires !IsSyllable(c)
    ensures Syllables(x + [c] + y) == Syllables(x + y)
    ensures Strokes(x + [c] + y) == Strokes(x + y)
  {
    var xc := x + [c];
    assert xc[..|xc| - 1] == x;
    assert Syllables(xc) == Syllables(x);
    SyllablesConcat(xc, y);
    SyllablesConcat(x, y);
  }

  /** One folding pass: neighbours added modulo 100, one value fewer. */
  function FoldPass(s: seq<nat>): (r: seq<nat>)
    ensures |s| > 0 ==> |r| == |s| - 1
    ensures forall i :: 0 <= i < |r| ==> r[i] < 100
  {
    if s == [] then []
    else seq(|s| - 1, i requires 0 <= i < |s| - 1 => (s[i] + s[i + 1]) % 100)
  }

  /**
   * Passes repeated while more than two values remain. From two or more values
   * the result has exactly two; a single value remains only when there was
   * only one to begin with.
   */
  function Fold(s: seq<nat>): (r: seq<nat>)
    decreases |s|
    ensures |s| <= 2 ==> r == s
    ensures |s| >= 2 ==> |r| == 2
    ensures |r| == 1 <==> |s| == 1
    ensures |s| > 2 ==> forall i :: 0 <= i < |r| ==> r[i] < 100
  {
    if |s| <= 2 then s else Fold(FoldPass(s))
  }

  /**
   * The score of a list of stroke values: 0 for an empty list; otherwise the
   * last digits of the two folded values as tens and ones, or the single
   * value modulo 100.
   */
  function FoldScore(strokes: seq<nat>): (score: nat)
    ensures score <= 99
  {
    if strokes == [] then 0
    else
      var f := Fold(strokes);
      if |f| == 2 then (f[0] % 10) * 10 + f[1] % 10
      else f[0] % 100
  }

  /** The score of two names: that of the stroke values of both names together. */
  function LoveScore(name1: string, name2: string): (score: nat)
    ensures score <= 99
  {
    FoldScore(Strokes(name1 + name2))
  }

  /** The score as the program computes it, reassigning the list in a loop. */
  method CalculateLoveScore(name1: string, name2: string) returns (score: nat)
    ensures score == LoveScore(name1, name2)
  {
    var strokes := Strokes(name1 + name2);
    if strokes == [] {
      return 0;
    }
    ghost var initial := strokes;
    while |strokes| > 2
      invariant 1 <= |strokes|
      invariant Fold(strokes) == Fold(initial)
      invariant forall k :: 0 <= k < |strokes| ==> strokes[k] < 100
      decreases |strokes|
    {
      strokes := FoldPass(strokes);
    }
    if |strokes| == 2 {
      score := (strokes[0] % 10) * 10 + strokes[1] % 10;
    } else {
      // one value is left, so the fall-through result 0 is never produced
      assert |strokes| == 1;
      score := strokes[0] % 100;
    }
  }

  /** Without any syllable in either name the score is 0. */
  lemma NoSyllablesScoreZero(name1: string, name2: string)
    requires forall i :: 0 <= i < |name1| ==> !IsSyllable(name1[i])
    requires forall i :: 0 <= i < |name2| ==> !IsSyllable(name2[i])
    ensures LoveScore(name1, name2) == 0
  {
    NoStrokesIffNoSyllables(name1);
    NoStrokesIffNoSyllables(name2);
    StrokesConcat(name1, name2);
  }

  /** A string with a single syllable, at p, has that syllable's stroke value as its only value. */
  lemma SingleSyllableStrokes(s: string, p: nat)
    requires p < |s| && IsSyllable(s[p])
    requires forall i :: 0 <= i < |s| && i != p ==> !IsSyllable(s[i])
    ensures Strokes(s) == [StrokeValue(s[p])]
  {
    PositionsExactly(s, [p]);
    SyllablesAtPositions(s);
    assert Syllables(s) == [s[p]];
  }

  /** A single value is its own score when it is below 100, as every stroke value is. */
  lemma SingleValueScore(v: nat)
    requires v < 100
    ensures FoldScore([v]) == v
  {
    assert Fold([v]) == [v];
  }

  /** With a single syllable in both names together, the score is its stroke value. */
  lemma OneSyllableScore(name1: string, name2: string, p: nat)
    requires p < |name1 + name2| && IsSyllable((name1 + name2)[p])
    requires forall i :: 0 <= i < |name1 + name2| && i != p ==> !IsSyllable((name1 + name2)[i])
    ensures LoveScore(name1, name2) == StrokeValue((name1 + name2)[p])
  {
    var s := name1 + name2;
    SingleSyllableStrokes(s, p);
    SingleValueScore(StrokeValue(s[p]));
  }

  /**
   * With exactly two syllables, at p before q, no pass runs and the score is
   * the last digit of the first stroke value followed by that of the second.
   */
  lemma TwoSyllableScore(name1: string, name2: string, p: nat, q: nat)
    requires p < q < |name1 + name2| && IsSyllable((name1 + name2)[p]) && IsSyllable((name1 + name2)[q])
    requires forall i :: 0 <= i < |name1 + name2| && i != p && i != q ==> !IsSyllable((name1 + name2)[i])
    ensures LoveScore(name1, name2)
            == (StrokeValue((name1 + name2)[p]) % 10) * 10 + StrokeValue((name1 + name2)[q]) % 10
  {
    var s := name1 + name2;
    PositionsExactly(s, [p, q]);
    SyllablesAtPositions(s);
    assert Syllables(s) == [s[p], s[q]];
  }

  /** A character outside the syllable block, inserted anywhere into the first name, leaves the score unchanged. */
  lemma ScoreIgnoresNonSyllable(name1: string, name2: string, k: nat, c: char)
    requires k <= |name1| && !IsSyllable(c)
    ensures LoveScore(name1[..k] + [c] + name1[k..], name2) == LoveScore(name1, name2)
  {
    var x, y := name1[..k], name1[k..] + name2;
    assert name1[..k] + [c] + name1[k..] + name2 == x + [c] + y;
    assert name1 + name2 == x + y;
    NonSyllableIsDropped(x, c, y);
  }
}
