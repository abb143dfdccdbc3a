/** `find_relevant_chat`: the labelled chat whose text scores highest against
    the user's message, the earliest one on a tie, and none unless some chat
    scores at least 1. */
module Selector {
  import opened Base
  import opened Similarity

  /** One `(id, prompt, response)` tuple of the smart-mode select. */
  datatype Candidate = Candidate(id: nat, prompt: string, response: string)

  /** The score `find_relevant_chat` computes for a candidate: its prompt and response
      joined by a space, against the message. */
  function CandidateScore(c: Candidate, message: string): nat {
    Score(c.prompt + " " + c.response, message)
  }

  /** The score of every candidate, in list order. */
  function Scores(chats: seq<Candidate>, message: string): (s: seq<nat>)
    ensures |s| == |chats|
    ensures forall j :: 0 <= j < |chats| ==> s[j] == CandidateScore(chats[j], message)
  {
    seq(|chats|, j requires 0 <= j < |chats| => CandidateScore(chats[j], message))
  }

  /** Index `k` holds a positive score, no score exceeds it and every earlier
      one is strictly smaller. */
  predicate FirstMax(scores: seq<nat>, k: nat) {
    && k < |scores|
    && scores[k] >= 1
    && (forall j :: 0 <= j < |scores| ==> scores[j] <= scores[k])
    && (forall j :: 0 <= j < k ==> scores[j] < scores[k])
  }

  /** Candidate `k` is the first maximum of the candidates' scores. */
  predicate FirstMaximum(chats: seq<Candidate>, message: string, k: nat) {
    FirstMax(Scores(chats, message), k)
  }

  /** `FirstMaximum` spelled out on the candidates themselves: candidate `k`
      scores at least 1, no candidate scores more, and every earlier
      candidate scores strictly less. */
  lemma FirstMaximumOfCandidates(chats: seq<Candidate>, message: string, k: nat)
    ensures FirstMaximum(chats, message, k) <==>
              && k < |chats|
              && CandidateScore(chats[k], message) >= 1
              && (forall j :: 0 <= j < |chats| ==> CandidateScore(chats[j], message) <= CandidateScore(chats[k], message))
              && (forall j :: 0 <= j < k ==> CandidateScore(chats[j], message) < CandidateScore(chats[k], message))
  {
  }

  /** At most one index is the first maximum. */
  lemma FirstMaximumUnique(chats: seq<Candidate>, message: string, k1: nat, k2: nat)
    requires FirstMaximum(chats, message, k1) && FirstMaximum(chats, message, k2)
    ensures k1 == k2
  {
  }

  /** The loop of `find_relevant_chat` from position `i` on, with `maxScore` and `best` the
      running maximum and the index it was first reached at. Only a strictly
      greater score replaces the running best. */
  function Scan(scores: seq<nat>, i: nat, maxScore: nat, best: Option<nat>): (r: Option<nat>)
    requires i <= |scores|
    requires best.None? <==> maxScore == 0
    requires best.Some? ==> && best.value < i
                            && scores[best.value] == maxScore
                            && forall j :: 0 <= j < best.value ==> scores[j] < maxScore
    requires forall j :: 0 <= j < i ==> scores[j] <= maxScore
    ensures r.None? <==> forall j :: 0 <= j < |scores| ==> scores[j] == 0
    ensures r.Some? ==> FirstMax(scores, r.value)
    decreases |scores| - i
  {
    if i == |scores| then best
    else if scores[i] > maxScore then Scan(scores, i + 1, scores[i], Some(i))
    else Scan(scores, i + 1, maxScore, best)
  }

  /** Position of the chat `find_relevant_chat` settles on. */
  function RelevantIndex(chats: seq<Candidate>, message: string): (r: Option<nat>)
    ensures r.None? <==> forall j :: 0 <= j < |chats| ==> CandidateScore(chats[j], message) == 0
    ensures r.Some? ==> FirstMaximum(chats, message, r.value)
  {
    Scan(Scores(chats, message), 0, 0, None)
  }

  /** `find_relevant_chat`: the id of the first highest-scoring candidate, or
      `None` when the list is empty or every candidate scores 0. */
  function FindRelevantChat(chats: seq<Candidate>, message: string): (r: Option<nat>)
    ensures r.None? <==> forall j :: 0 <= j < |chats| ==> CandidateScore(chats[j], message) == 0
    ensures r.Some? ==> exists k :: 0 <= k < |chats| && chats[k].id == r.value && FirstMaximum(chats, message, k)
  {
    var idx := RelevantIndex(chats, message);
    if idx.None? then None
    else
      var k := idx.value;
      assert FirstMaximum(chats, message, k);
      Some(chats[k].id)
  }

  /** With no candidates there is nothing to return. */
  lemma NoCandidates(message: string)
    ensures FindRelevantChat([], message) == None
  {
  }

  /** When one of two candidates scores strictly higher, it is the one chosen. */
  lemma StrictlyBetterWins(a: Candidate, b: Candidate, message: string)
    ensures CandidateScore(a, message) > CandidateScore(b, message) ==> FindRelevantChat([a, b], message) == Some(a.id)
    ensures CandidateScore(b, message) > CandidateScore(a, message) ==> FindRelevantChat([a, b], message) == Some(b.id)
  {
    var chats := [a, b];
    var sa, sb := CandidateScore(a, message), CandidateScore(b, message);
    var r := RelevantIndex(chats, message);
    if sa != sb {
      assert CandidateScore(chats[0], message) == sa && CandidateScore(chats[1], message) == sb;
      assert r.Some?;
      var k := r.value;
      assert k == 0 || k == 1;
      assert FindRelevantChat(chats, message) == Some(chats[k].id);
      if sa > sb {
        assert k == 0;
      } else {
        assert k == 1;
      }
    }
  }
}
