/** The selection step of `retrieve_relevant_chunks` in main.py. The chunk
    scores (TF-IDF dot products computed by a foreign library) are an input,
    one per chunk, and so is the ranking `np.argsort(sims)[::-1]`, constrained
    to be one of the rankings it may return. What is modelled is what the
    code does on top of them: keep the first `top_k` ranked indices and drop
    those whose score is not positive. */
module Ranker {
  import opened Slices
  import opened Chunker

  /** The chunk indices 0 .. n - 1, in order. */
  function Indices(n: nat): (r: seq<nat>)
    ensures |r| == n && forall i :: 0 <= i < n ==> r[i] == i
  {
    seq(n, i requires 0 <= i => i)
  }

  /** Every element of `s` indexes a sequence of length n. */
  predicate InRange(s: seq<nat>, n: nat) {
    forall p :: 0 <= p < |s| ==> s[p] < n
  }

  /** Scores never increase along `s`. */
  predicate NonIncreasing(scores: seq<real>, s: seq<nat>)
    requires InRange(s, |scores|)
  {
    forall p, q :: 0 <= p < q < |s| ==> scores[s[p]] >= scores[s[q]]
  }

  /** `order` is a ranking `np.argsort(sims)[::-1]` may return: every chunk
      index exactly once, by non-increasing score. How equal scores are
      ordered is left open, as the quicksort behind argsort leaves it. */
  predicate IsRanking(order: seq<nat>, scores: seq<real>) {
    && InRange(order, |scores|)
    && multiset(order) == multiset(Indices(|scores|))
    && NonIncreasing(scores, order)
  }

  /** The comprehension's filter `if sims[i] > 0`: the indices of `ranked`
      with a positive score, in ranked order. */
  function Positive(scores: seq<real>, ranked: seq<nat>): (r: seq<nat>)
    requires InRange(ranked, |scores|)
    ensures InRange(r, |scores|) && |r| <= |ranked|
    ensures forall j :: 0 <= j < |r| ==> scores[r[j]] > 0.0
    ensures multiset(r) <= multiset(ranked)
  {
    if ranked == [] then []
    else
      assert ranked == [ranked[0]] + ranked[1..];
      (if scores[ranked[0]] > 0.0 then [ranked[0]] else []) + Positive(scores, ranked[1..])
  }

  /** The indices retrieve_relevant_chunks returns chunks for:
      `[i for i in order[:top_k] if sims[i] > 0]`. */
  function Picked(scores: seq<real>, order: seq<nat>, topK: int): seq<nat>
    requires IsRanking(order, scores)
  {
    Positive(scores, Slice(order, 0, topK))
  }

  /** `[chunks[i] for i in idx if sims[i] > 0]` with idx = order[:top_k]. */
  function Select(chunks: seq<string>, scores: seq<real>, order: seq<nat>, topK: int): seq<string>
    requires |scores| == |chunks| && IsRanking(order, scores)
  {
    var picked := Picked(scores, order, topK);
    seq(|picked|, j requires 0 <= j < |picked| => chunks[picked[j]])
  }

  /** retrieve_relevant_chunks(text, question, top_k): the question enters
      only through the scores. No chunks, no result. */
  function Retrieve(text: string, scores: seq<real>, order: seq<nat>, topK: int): (r: seq<string>)
    requires |scores| == |Chunks(text, DefaultChunkSize, DefaultOverlap)|
    requires IsRanking(order, scores)
    ensures text == [] ==> r == []
    ensures 0 <= topK ==> |r| <= topK
    ensures forall j :: 0 <= j < |r| ==> r[j] in Chunks(text, DefaultChunkSize, DefaultOverlap)
  {
    var chunks := Chunks(text, DefaultChunkSize, DefaultOverlap);
    if chunks == [] then [] else Select(chunks, scores, order, topK)
  }

  /** No index occurs twice in `s`. */
  predicate Distinct(s: seq<nat>) {
    forall p, q :: 0 <= p < q < |s| ==> s[p] != s[q]
  }

  /** Every positively scored index of `ranked` survives the filter. */
  lemma {:induction false} PositiveComplete(scores: seq<real>, ranked: seq<nat>, p: nat)
    requires InRange(ranked, |scores|)
    requires p < |ranked| && scores[ranked[p]] > 0.0
    ensures ranked[p] in Positive(scores, ranked)
  {
    if p > 0 {
      PositiveComplete(scores, ranked[1..], p - 1);
    }
  }

  /** The filter keeps the ranked order: scores still never increase. */
  lemma {:induction false} PositiveKeepsOrder(scores: seq<real>, ranked: seq<nat>)
    requires InRange(ranked, |scores|) && NonIncreasing(scores, ranked)
    ensures NonIncreasing(scores, Positive(scores, ranked))
  {
    if ranked != [] {
      var rest := ranked[1..];
      PositiveKeepsOrder(scores, rest);
      var tail := Positive(scores, rest);
      if scores[ranked[0]] > 0.0 {
        forall q | 0 <= q < |tail|
          ensures scores[ranked[0]] >= scores[tail[q]]
        {
          assert tail[q] in multiset(rest);
          var q' :| 0 <= q' < |rest| && rest[q'] == tail[q];
          assert ranked[q' + 1] == tail[q];
        }
        assert Positive(scores, ranked) == [ranked[0]] + tail;
      }
    }
  }

  /** An index occurs in the multiset of Indices(n) at most once. */
  lemma {:induction false} IndicesOnce(n: nat, x: nat)
    ensures multiset(Indices(n))[x] == if x < n then 1 else 0
  {
    if n > 0 {
      IndicesOnce(n - 1, x);
      assert Indices(n) == Indices(n - 1) + [n - 1];
      if x == n - 1 {
        assert x !in Indices(n - 1);
      }
    }
  }

  /** A sequence whose every element occurs at most once has no duplicate. */
  lemma DistinctByCount(s: seq<nat>)
    requires forall x :: multiset(s)[x] <= 1
    ensures Distinct(s)
  {
    forall p, q | 0 <= p < q < |s|
      ensures s[p] != s[q]
    {
      RepeatCounts(s, p, q);
    }
  }

  lemma RepeatCounts(s: seq<nat>, p: nat, q: nat)
    requires p < q < |s|
    ensures s[p] == s[q] ==> multiset(s)[s[p]] >= 2
  {
    assert s == s[..p] + s[p..q] + s[q..];
    assert s[p] == s[p..q][0] && s[q] == s[q..][0];
    assert multiset(s)[s[p]] == multiset(s[..p])[s[p]] + multiset(s[p..q])[s[p]] + multiset(s[q..])[s[p]];
  }

  /** Every chunk index has a place in a ranking. */
  lemma InRanking(order: seq<nat>, scores: seq<real>, i: nat)
    requires IsRanking(order, scores) && i < |scores|
    ensures i in order
  {
    assert Indices(|scores|)[i] == i;
    assert i in multiset(Indices(|scores|));
  }

  /** The top of a ranking is its first topK entries (all but the last
      -topK for a negative topK, as Python slices). */
  lemma TopIsPrefix(order: seq<nat>, topK: int)
    ensures multiset(Slice(order, 0, topK)) <= multiset(order)
    ensures 0 <= topK ==> |Slice(order, 0, topK)| == Min(topK, |order|)
  {
    var b := Bound(topK, |order|);
    assert order == order[..b] + order[b..];
  }

  /** What the returned chunks are: at most topK of them, each the chunk of
      a distinct index with a positive score, in non-increasing score order. */
  lemma SelectSpec(chunks: seq<string>, scores: seq<real>, order: seq<nat>, topK: int)
    requires |scores| == |chunks| && IsRanking(order, scores)
    ensures var picked := Picked(scores, order, topK);
      && |Select(chunks, scores, order, topK)| == |picked|
      && (0 <= topK ==> |picked| <= topK)
      && (forall j :: 0 <= j < |picked| ==>
            picked[j] < |chunks| && scores[picked[j]] > 0.0
            && Select(chunks, scores, order, topK)[j] == chunks[picked[j]])
      && NonIncreasing(scores, picked)
      && Distinct(picked)
  {
    var top := Slice(order, 0, topK);
    var picked := Picked(scores, order, topK);
    TopIsPrefix(order, topK);
    assert NonIncreasing(scores, top) by {
      assert top == order[..Bound(topK, |order|)];
    }
    PositiveKeepsOrder(scores, top);
    forall x ensures multiset(picked)[x] <= 1 {
      IndicesOnce(|scores|, x);
    }
    DistinctByCount(picked);
  }

  /** Among the first topK ranked indices, exactly the positively scored
      ones are returned. */
  lemma SelectComplete(chunks: seq<string>, scores: seq<real>, order: seq<nat>, topK: int, p: nat)
    requires |scores| == |chunks| && IsRanking(order, scores)
    requires p < |Slice(order, 0, topK)| && scores[Slice(order, 0, topK)[p]] > 0.0
    ensures Slice(order, 0, topK)[p] in Picked(scores, order, topK)
  {
    PositiveComplete(scores, Slice(order, 0, topK), p);
  }

  /** An index ranked below the first topK scores no higher than any index
      ranked among them; which of two equal scores makes the cut is open. */
  lemma TopDominates(scores: seq<real>, order: seq<nat>, topK: int, i: nat, p: nat)
    requires IsRanking(order, scores)
    requires i < |scores| && i !in Slice(order, 0, topK)
    requires p < |Slice(order, 0, topK)|
    ensures scores[i] <= scores[Slice(order, 0, topK)[p]]
  {
    var b := Bound(topK, |order|);
    assert Slice(order, 0, topK) == order[..b];
    InRanking(order, scores, i);
    var q :| 0 <= q < |order| && order[q] == i;
    assert q >= b;
  }

  /** With topK at least one, nothing is returned exactly when no chunk has a
      positive score. */
  lemma SelectEmptyIff(chunks: seq<string>, scores: seq<real>, order: seq<nat>, topK: int)
    requires |scores| == |chunks| && IsRanking(order, scores)
    requires topK >= 1
    ensures Select(chunks, scores, order, topK) == [] <==> forall i :: 0 <= i < |scores| ==> scores[i] <= 0.0
  {
    var picked := Picked(scores, order, topK);
    assert |Select(chunks, scores, order, topK)| == |picked|;
    assert picked != [] ==> scores[picked[0]] > 0.0;
    if i :| 0 <= i < |scores| && scores[i] > 0.0 {
      PickedNonEmpty(scores, order, topK, i);
    }
  }

  /** One positively scored chunk suffices for something to be picked. */
  lemma PickedNonEmpty(scores: seq<real>, order: seq<nat>, topK: int, i: nat)
    requires IsRanking(order, scores) && topK >= 1
    requires i < |scores| && scores[i] > 0.0
    ensures Picked(scores, order, topK) != []
  {
    var top := Slice(order, 0, topK);
    FirstRankedHighest(order, scores, i);
    assert top[0] == order[0];
    PositiveComplete(scores, top, 0);
  }

  /** The first ranked index scores at least as high as any index. */
  lemma FirstRankedHighest(order: seq<nat>, scores: seq<real>, i: nat)
    requires IsRanking(order, scores) && i < |scores|
    ensures 0 < |order| && scores[order[0]] >= scores[i]
  {
    InRanking(order, scores, i);
    var q :| 0 <= q < |order| && order[q] == i;
    if q > 0 {
      assert scores[order[0]] >= scores[order[q]];
    }
  }

  /** Inserts index i into a ranking after every index scored at least as
      high: one step of building a ranking. */
  function Insert(scores: seq<real>, i: nat, ranked: seq<nat>): (r: seq<nat>)
    requires i < |scores| && InRange(ranked, |scores|)
    ensures InRange(r, |scores|)
    ensures multiset(r) == multiset(ranked) + multiset{i}
    ensures NonIncreasing(scores, ranked) ==> NonIncreasing(scores, r)
  {
    if ranked == [] then [i]
    else if scores[ranked[0]] < scores[i] then [i] + ranked
    else
      assert ranked == [ranked[0]] + ranked[1..];
      var tail := Insert(scores, i, ranked[1..]);
      InsertBelowHead(scores, i, ranked, tail);
      [ranked[0]] + tail
  }

  /** Putting the head of a ranking back in front of the insertion into its
      tail keeps the scores non-increasing: the head scores at least as high
      as everything in the tail and as the inserted index. */
  lemma InsertBelowHead(scores: seq<real>, i: nat, ranked: seq<nat>, tail: seq<nat>)
    requires i < |scores| && ranked != [] && InRange(ranked, |scores|) && InRange(tail, |scores|)
    requires scores[ranked[0]] >= scores[i]
    requires multiset(tail) == multiset(ranked[1..]) + multiset{i}
    requires NonIncreasing(scores, ranked) ==> NonIncreasing(scores, tail)
    ensures InRange([ranked[0]] + tail, |scores|)
    ensures NonIncreasing(scores, ranked) ==> NonIncreasing(scores, [ranked[0]] + tail)
  {
    var r := [ranked[0]] + tail;
    if NonIncreasing(scores, ranked) {
      forall q | 0 <= q < |tail| ensures scores[ranked[0]] >= scores[tail[q]] {
        assert tail[q] in multiset(tail);
        if tail[q] != i {
          assert tail[q] in multiset(ranked[1..]);
          var q' :| 0 <= q' < |ranked[1..]| && ranked[1..][q'] == tail[q];
          assert ranked[q' + 1] == tail[q];
        }
      }
      forall p, q | 0 <= p < q < |r| ensures scores[r[p]] >= scores[r[q]] {
        if p > 0 {
          assert r[p] == tail[p - 1] && r[q] == tail[q - 1];
        } else {
          assert r[q] == tail[q - 1];
        }
      }
    }
  }

  /** A ranking of the first n indices, built by insertion. */
  function RankFirst(scores: seq<real>, n: nat): (r: seq<nat>)
    requires n <= |scores|
    ensures InRange(r, |scores|) && NonIncreasing(scores, r)
    ensures multiset(r) == multiset(Indices(n))
  {
    if n == 0 then []
    else
      assert Indices(n) == Indices(n - 1) + [n - 1];
      Insert(scores, n - 1, RankFirst(scores, n - 1))
  }

  /** Every score vector has a ranking, so Retrieve is defined for every
      text and every score vector of the right length. */
  lemma RankingExists(scores: seq<real>)
    ensures IsRanking(RankFirst(scores, |scores|), scores)
  {
  }
}
