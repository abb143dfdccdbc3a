/** `calculate_similarity_score`: adjacent word pairs of the first text whose
    two words both occur somewhere in the second text. */
module Similarity {
  import opened Text

  /** `text.lower().split()`. */
  function Words(text: string): seq<string> {
    Split(Lower(text))
  }

  /** Number of adjacent pairs `range(len(w1) - 1)` visits. */
  function PairSlots(w1: seq<string>): nat {
    if |w1| < 2 then 0 else |w1| - 1
  }

  /** Pair `i` scores when each of its two words is a member of `w2`,
      wherever in `w2` it occurs. */
  predicate PairHit(w1: seq<string>, w2: seq<string>, i: nat)
    requires i + 1 < |w1|
  {
    w1[i] in w2 && w1[i + 1] in w2
  }

  /** Hits among the first `n` pairs. */
  function PairCount(w1: seq<string>, w2: seq<string>, n: nat): (r: nat)
    requires n <= PairSlots(w1)
    ensures r <= n
    ensures r == 0 <==> forall i :: 0 <= i < n ==> !PairHit(w1, w2, i)
    ensures r == n <==> forall i :: 0 <= i < n ==> PairHit(w1, w2, i)
  {
    if n == 0 then 0
    else PairCount(w1, w2, n - 1) + (if PairHit(w1, w2, n - 1) then 1 else 0)
  }

  /** The score of two word lists. */
  function ScoreWords(w1: seq<string>, w2: seq<string>): (r: nat)
    ensures r <= PairSlots(w1)
  {
    PairCount(w1, w2, PairSlots(w1))
  }

  /** The score of two texts, bounded by the number of pairs in the first. */
  function Score(text1: string, text2: string): (r: nat)
    ensures r <= PairSlots(Words(text1))
    ensures |Words(text1)| < 2 ==> r == 0
  {
    ScoreWords(Words(text1), Words(text2))
  }

  /** `calculate_similarity_score`: split both texts into lower-cased
      words, then count the scoring pairs. */
  method CalculateSimilarityScore(text1: string, text2: string) returns (score: nat)
    ensures score == Score(text1, text2)
  {
    var words1 := Words(text1);
    var words2 := Words(text2);
    score := CountPairs(words1, words2);
  }

  /** The loop of `calculate_similarity_score`, counting hits left to right. */
  method CountPairs(words1: seq<string>, words2: seq<string>) returns (score: nat)
    ensures score == ScoreWords(words1, words2)
  {
    score := 0;
    var i := 0;
    while i < |words1| - 1
      invariant i <= PairSlots(words1)
      invariant score == PairCount(words1, words2, i)
    {
      if words1[i] in words2 && words1[i + 1] in words2 {
        score := score + 1;
      }
      i := i + 1;
    }
  }

  /** The indices of the scoring pairs among the first `n`. */
  function HitSet(w1: seq<string>, w2: seq<string>, n: nat): set<nat>
    requires n <= PairSlots(w1)
  {
    set i: nat | i < n && PairHit(w1, w2, i)
  }

  /** The score counts exactly the pairs whose words both occur in `w2`. */
  lemma {:induction false} PairCountIsHitCount(w1: seq<string>, w2: seq<string>, n: nat)
    requires n <= PairSlots(w1)
    ensures PairCount(w1, w2, n) == |HitSet(w1, w2, n)|
  {
    if n > 0 {
      PairCountIsHitCount(w1, w2, n - 1);
      HitSetStep(w1, w2, n);
      var before := HitSet(w1, w2, n - 1);
      if PairHit(w1, w2, n - 1) {
        assert n - 1 !in before;
        assert |before + {n - 1}| == |before| + 1;
      }
    } else {
      assert HitSet(w1, w2, 0) == {};
    }
  }

  /** Extending the range by one pair adds that pair's index when it hits. */
  lemma HitSetStep(w1: seq<string>, w2: seq<string>, n: nat)
    requires 0 < n <= PairSlots(w1)
    ensures HitSet(w1, w2, n) == HitSet(w1, w2, n - 1) + (if PairHit(w1, w2, n - 1) then {n - 1} else {})
  {
    var before, after := HitSet(w1, w2, n - 1), HitSet(w1, w2, n);
    var extra: set<nat> := if PairHit(w1, w2, n - 1) then {n - 1} else {};
    forall i: nat | i in after
      ensures i in before + extra
    {
      if i < n - 1 {
        assert i in before;
      }
    }
  }

  lemma ScoreIsHitCount(text1: string, text2: string)
    ensures Score(text1, text2) == |HitSet(Words(text1), Words(text2), PairSlots(Words(text1)))|
  {
    PairCountIsHitCount(Words(text1), Words(text2), PairSlots(Words(text1)));
  }

  /** Only which words occur in the second list matters, not where. */
  lemma {:induction false} PairCountMembershipOnly(w1: seq<string>, w2: seq<string>, w2': seq<string>, n: nat)
    requires n <= PairSlots(w1)
    requires forall w :: w in w2 <==> w in w2'
    ensures PairCount(w1, w2, n) == PairCount(w1, w2', n)
  {
    if n > 0 {
      PairCountMembershipOnly(w1, w2, w2', n - 1);
      assert PairHit(w1, w2, n - 1) == PairHit(w1, w2', n - 1);
    }
  }

  /** Two second texts with the same vocabulary score every first text alike,
      whatever the order or repetition of their words. */
  lemma ScoreMembershipOnly(text1: string, text2: string, text2': string)
    requires forall w :: w in Words(text2) <==> w in Words(text2')
    ensures Score(text1, text2) == Score(text1, text2')
  {
    PairCountMembershipOnly(Words(text1), Words(text2), Words(text2'), PairSlots(Words(text1)));
  }

  /** A second text without words scores 0 against anything. */
  lemma EmptySecondText(text1: string, text2: string)
    requires Words(text2) == []
    ensures Score(text1, text2) == 0
  {
    var w1 := Words(text1);
    forall i | 0 <= i < PairSlots(w1)
      ensures !PairHit(w1, [], i)
    {
    }
  }

  /** A positive score means some pair of the first text has both words in
      the second, and conversely. */
  lemma ScorePositive(text1: string, text2: string)
    ensures Score(text1, text2) >= 1 <==>
      exists i :: 0 <= i < PairSlots(Words(text1)) && PairHit(Words(text1), Words(text2), i)
  {
  }

  /** Lower-casing either text beforehand does not change the score. */
  lemma ScoreCaseInsensitive(text1: string, text2: string)
    ensures Score(Lower(text1), text2) == Score(text1, text2)
    ensures Score(text1, Lower(text2)) == Score(text1, text2)
  {
    LowerIdempotent(text1);
    LowerIdempotent(text2);
  }

  /** The words of `prompt + " " + response` are those of the prompt followed
      by those of the response. */
  lemma WordsOfExchange(prompt: string, response: string)
    ensures Words(prompt + " " + response) == Words(prompt) + Words(response)
  {
    LowerSpaceJoin(prompt, response);
    SplitSpaceJoin(Lower(prompt), Lower(response));
  }

  /** Text without capital letters is its own lower-casing. */
  lemma LowerNoCapitals(s: string)
    requires forall i :: 0 <= i < |s| ==> !('A' <= s[i] <= 'Z')
    ensures Lower(s) == s
  {
  }

  lemma {:induction false} SplitWordsOf(ws: seq<string>, s: string)
    requires forall k :: 0 <= k < |ws| ==> IsWord(ws[k])
    requires forall k :: 0 <= k < |ws| ==> forall i :: 0 <= i < |ws[k]| ==> !('A' <= ws[k][i] <= 'Z')
    requires s == JoinWords(ws)
    ensures Words(s) == ws
  {
    LowerJoinNoCapitals(ws);
    SplitJoin(ws);
  }

  lemma {:induction false} LowerJoinNoCapitals(ws: seq<string>)
    requires forall k :: 0 <= k < |ws| ==> forall i :: 0 <= i < |ws[k]| ==> !('A' <= ws[k][i] <= 'Z')
    ensures Lower(JoinWords(ws)) == JoinWords(ws)
  {
    if |ws| == 1 {
      LowerNoCapitals(ws[0]);
    } else if |ws| > 1 {
      LowerJoinNoCapitals(ws[1..]);
      LowerNoCapitals(ws[0]);
      LowerSpaceJoin(ws[0], JoinWords(ws[1..]));
    }
  }

  lemma WordsRedFox()
    ensures Words("red fox jumps") == ["red", "fox", "jumps"]
  {
    var w: seq<string> := ["red", "fox", "jumps"];
    assert JoinWords(w[1..]) == "fox jumps" by {
      assert w[1..] == ["fox", "jumps"] && w[1..][1..] == ["jumps"];
    }
    assert "red fox jumps" == "red" + " " + "fox jumps";
    SplitWordsOf(w, "red fox jumps");
  }

  lemma WordsTheFox()
    ensures Words("the fox jumps over") == ["the", "fox", "jumps", "over"]
  {
    var w: seq<string> := ["the", "fox", "jumps", "over"];
    JoinTheFox();
    PlainWords(w);
    SplitWordsOf(w, "the fox jumps over");
  }

  lemma JoinTheFox()
    ensures JoinWords(["the", "fox", "jumps", "over"]) == "the fox jumps over"
  {
    var w: seq<string> := ["the", "fox", "jumps", "over"];
    assert w[1..] == ["fox", "jumps", "over"];
    assert w[1..][1..] == ["jumps", "over"] && w[1..][1..][1..] == ["over"];
    assert JoinWords(["jumps", "over"]) == "jumps over";
    assert JoinWords(w[1..]) == "fox" + " " + "jumps over";
  }

  /** The words of the worked example are lower-case words. */
  lemma PlainWords(w: seq<string>)
    requires w == ["the", "fox", "jumps", "over"]
    ensures forall k :: 0 <= k < |w| ==> IsWord(w[k])
    ensures forall k :: 0 <= k < |w| ==> forall i :: 0 <= i < |w[k]| ==> !('A' <= w[k][i] <= 'Z')
  {
  }

  lemma ScoreRedFoxWords()
    ensures ScoreWords(["red", "fox", "jumps"], ["the", "fox", "jumps", "over"]) == 1
  {
    var w1: seq<string> := ["red", "fox", "jumps"];
    var w2: seq<string> := ["the", "fox", "jumps", "over"];
    assert !PairHit(w1, w2, 0) by {
      assert w2[0] != "red" && w2[1] != "red" && w2[2] != "red" && w2[3] != "red";
    }
    assert PairHit(w1, w2, 1) by {
      assert w2[1] == "fox" && w2[2] == "jumps";
    }
  }

  lemma ScoreViaWords(text1: string, text2: string, w1: seq<string>, w2: seq<string>)
    requires Words(text1) == w1 && Words(text2) == w2
    ensures Score(text1, text2) == ScoreWords(w1, w2)
  {
  }

  /** The worked example: only the pair ("fox", "jumps") scores. */
  lemma WorkedExample()
    ensures Score("red fox jumps", "the fox jumps over") == 1
  {
    WordsRedFox();
    WordsTheFox();
    ScoreRedFoxWords();
    ScoreViaWords("red fox jumps", "the fox jumps over", ["red", "fox", "jumps"], ["the", "fox", "jumps", "over"]);
  }
}
