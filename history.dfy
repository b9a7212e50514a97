/** Pure functions over the analysis history of app.py: the capacity-10
    window that /analyze keeps, the newest-first listing of /history, the
    label counts of /stats and the filtered results of /batch-analyze. */
module History {
  import opened Sentiment

  /** `if len(analysis_history) > 10: analysis_history.pop(0)` */
  const MaxHistory: nat := 10

  // ---------------------------------------------------------------------
  // The bounded buffer

  /** The history after one successful analysis `a` is appended to `h`:
      the append, then the removal of the first entry once the length
      exceeds the capacity. */
  function Recorded(h: seq<Analysis>, a: Analysis): (r: seq<Analysis>)
    ensures |r| == if |h| < MaxHistory then |h| + 1 else |h|
    ensures r[|r| - 1] == a
    ensures r[..|r| - 1] == h[|h| - (|r| - 1)..]
  {
    var grown := h + [a];
    if |grown| > MaxHistory then grown[1..] else grown
  }

  /** The last MaxHistory elements of `s` (all of `s` when it is shorter). */
  function Window(s: seq<Analysis>): (w: seq<Analysis>)
    ensures |w| <= MaxHistory
    ensures |w| == if |s| <= MaxHistory then |s| else MaxHistory
    ensures w == s[|s| - |w|..]
  {
    if |s| <= MaxHistory then s else s[|s| - MaxHistory..]
  }

  /** Recording grows the history by one up to the capacity and the new
      analysis is always its last entry. */
  lemma RecordedLengthAndLast(h: seq<Analysis>, a: Analysis)
    requires |h| <= MaxHistory
    ensures |Recorded(h, a)| == if |h| < MaxHistory then |h| + 1 else MaxHistory
    ensures Recorded(h, a)[|Recorded(h, a)| - 1] == a
  {
  }

  /** Below the capacity nothing is dropped; at the capacity exactly the
      oldest entry is dropped and the other entries keep their order. */
  lemma RecordedEvictsOnlyOldest(h: seq<Analysis>, a: Analysis)
    requires |h| <= MaxHistory
    ensures |h| < MaxHistory ==> Recorded(h, a) == h + [a]
    ensures |h| == MaxHistory ==> Recorded(h, a) == h[1..] + [a]
    ensures |h| == MaxHistory ==> forall i :: 1 <= i < |h| ==> Recorded(h, a)[i - 1] == h[i]
  {
  }

  /** Recording onto the window of every earlier analysis gives the window
      of every analysis so far: the history is always the last ten
      successful analyses, oldest first. */
  lemma {:induction false} RecordedSlidesWindow(s: seq<Analysis>, a: Analysis)
    ensures Recorded(Window(s), a) == Window(s + [a])
  {
  }

  /** Recording a well-formed analysis onto the window of the accepted
      analyses keeps the history equal to that window and keeps every
      entry well formed. */
  lemma RecordKeepsWindow(accepted: seq<Analysis>, a: Analysis)
    requires forall i :: 0 <= i < |Window(accepted)| ==> WellFormed(Window(accepted)[i])
    requires WellFormed(a)
    ensures Recorded(Window(accepted), a) == Window(accepted + [a])
    ensures forall i :: 0 <= i < |Window(accepted + [a])| ==> WellFormed(Window(accepted + [a])[i])
  {
    var h := Window(accepted);
    RecordedSlidesWindow(accepted, a);
    assert forall i :: 0 <= i < |Recorded(h, a)| ==> Recorded(h, a)[i] in h + [a];
  }

  /** The history a fresh server reaches after the given sequence of
      successful analyses. */
  function Replay(accepted: seq<Analysis>): seq<Analysis>
    decreases |accepted|
  {
    if accepted == [] then []
    else Recorded(Replay(accepted[..|accepted| - 1]), accepted[|accepted| - 1])
  }

  /** Whatever the number of analyses, replaying them from the empty
      history leaves exactly the last (at most ten) of them. */
  lemma {:induction false} ReplayIsWindow(accepted: seq<Analysis>)
    ensures Replay(accepted) == Window(accepted)
    decreases |accepted|
  {
    if accepted != [] {
      var front := accepted[..|accepted| - 1];
      var last := accepted[|accepted| - 1];
      ReplayIsWindow(front);
      RecordedSlidesWindow(front, last);
      assert front + [last] == accepted;
    }
  }

  // ---------------------------------------------------------------------
  // The /history listing

  /** `list(reversed(analysis_history))` */
  function Reversed(s: seq<Analysis>): (r: seq<Analysis>)
    ensures |r| == |s|
    ensures forall i :: 0 <= i < |s| ==> r[i] == s[|s| - 1 - i]
  {
    if s == [] then [] else [s[|s| - 1]] + Reversed(s[..|s| - 1])
  }

  /** Reversing the listing gives the history back. */
  lemma ReversedTwice(s: seq<Analysis>)
    ensures Reversed(Reversed(s)) == s
  {
  }

  /** After a successful analysis the /history listing starts with it,
      followed by the earlier entries that were kept, newest first. */
  lemma {:induction false} ListingAfterRecord(h: seq<Analysis>, a: Analysis)
    requires |h| <= MaxHistory
    ensures Reversed(Recorded(h, a))[0] == a
    ensures Reversed(Recorded(h, a))[1..] ==
              if |h| < MaxHistory then Reversed(h) else Reversed(h)[..|h| - 1]
  {
    RecordedEvictsOnlyOldest(h, a);
    if |h| < MaxHistory {
      ReversedSnoc(h, a);
    } else {
      ReversedSnoc(h[1..], a);
      ReversedDropFirst(h);
    }
  }

  /** The listing after an append starts with the appended entry. */
  lemma {:induction false} ReversedSnoc(s: seq<Analysis>, x: Analysis)
    ensures Reversed(s + [x]) == [x] + Reversed(s)
  {
    assert (s + [x])[..|s|] == s;
  }

  /** Dropping the oldest entry drops the last entry of the listing. */
  lemma {:induction false} ReversedDropFirst(s: seq<Analysis>)
    requires s != []
    ensures Reversed(s[1..]) == Reversed(s)[..|s| - 1]
  {
    var l, m := Reversed(s[1..]), Reversed(s)[..|s| - 1];
    assert |l| == |m|;
    forall i | 0 <= i < |l| ensures l[i] == m[i] {
      assert l[i] == s[1..][|s| - 2 - i] == s[|s| - 1 - i];
    }
  }

  // ---------------------------------------------------------------------
  // The /stats counts

  /** `sum(1 for item in analysis_history if item['sentiment'] == label)` */
  function Count(h: seq<Analysis>, l: Label): (n: nat)
    ensures n <= |h|
    ensures n == 0 <==> forall i :: 0 <= i < |h| ==> h[i].sentiment != l
  {
    if h == [] then 0
    else Count(h[..|h| - 1], l) + (if h[|h| - 1].sentiment == l then 1 else 0)
  }

  /** Every entry carries exactly one of the three labels. */
  lemma {:induction false} CountsPartition(h: seq<Analysis>)
    ensures Count(h, Positive) + Count(h, Negative) + Count(h, Neutral) == |h|
    decreases |h|
  {
    if h != [] {
      CountsPartition(h[..|h| - 1]);
    }
  }

  /** Counting over the concatenation of two histories adds the counts. */
  lemma {:induction false} CountAppend(h1: seq<Analysis>, h2: seq<Analysis>, l: Label)
    ensures Count(h1 + h2, l) == Count(h1, l) + Count(h2, l)
    decreases |h2|
  {
    if h2 == [] {
      assert h1 + h2 == h1;
    } else {
      var front := h2[..|h2| - 1];
      assert (h1 + h2)[..|h1 + h2| - 1] == h1 + front;
      assert (h1 + h2)[|h1 + h2| - 1] == h2[|h2| - 1];
      CountAppend(h1, front, l);
    }
  }

  /** What one successful analysis does to a label count: the new entry
      adds one to its own label, and at capacity the evicted oldest entry
      takes one from its label. */
  lemma {:induction false} CountAfterRecord(h: seq<Analysis>, a: Analysis, l: Label)
    requires |h| <= MaxHistory
    ensures Count(Recorded(h, a), l) ==
              Count(h, l) + (if a.sentiment == l then 1 else 0)
                          - (if |h| == MaxHistory && h[0].sentiment == l then 1 else 0)
  {
    assert [a][..0] == [];
    CountAppend(h, [a], l);
    if |h| == MaxHistory {
      assert h + [a] == [h[0]] + (h[1..] + [a]);
      assert [h[0]][..0] == [];
      CountAppend([h[0]], h[1..] + [a], l);
    }
  }

  /** The `stats` object of /stats, without the two float averages. */
  datatype Stats = Stats(total: nat, positive: nat, negative: nat, neutral: nat)

  /** The /stats body for a given history: all zeros when the history is
      empty, the label counts otherwise. */
  function StatsOf(h: seq<Analysis>): (st: Stats)
    ensures st.total == |h|
    ensures st.positive + st.negative + st.neutral == st.total
    ensures h == [] ==> st == Stats(0, 0, 0, 0)
    ensures st.positive == Count(h, Positive) && st.negative == Count(h, Negative) &&
            st.neutral == Count(h, Neutral)
  {
    if h == [] then Stats(0, 0, 0, 0)
    else
      CountsPartition(h);
      Stats(|h|, Count(h, Positive), Count(h, Negative), Count(h, Neutral))
  }

  /** /stats counts the listing the same as the history: reversal does not
      change any label count. */
  lemma {:induction false} CountReversed(h: seq<Analysis>, l: Label)
    ensures Count(Reversed(h), l) == Count(h, l)
    decreases |h|
  {
    if h != [] {
      var front := h[..|h| - 1];
      CountReversed(front, l);
      assert Reversed(h) == [h[|h| - 1]] + Reversed(front);
      CountAppend([h[|h| - 1]], Reversed(front), l);
      assert [h[|h| - 1]][..0] == [];
    }
  }

  /** The number of entries whose (unrounded) polarity exceeds the threshold. */
  function PositivePolarities(h: seq<Analysis>): nat {
    if h == [] then 0
    else PositivePolarities(h[..|h| - 1]) + (if h[|h| - 1].polarity > Threshold then 1 else 0)
  }

  /** For analyses as AnalyzeSentiment builds them, the Positive count of
      /stats is the number of entries whose unrounded polarity exceeds the
      threshold. */
  lemma {:induction false} PositiveCountIsPolarityCount(h: seq<Analysis>)
    requires forall i :: 0 <= i < |h| ==> WellFormed(h[i])
    ensures Count(h, Positive) == PositivePolarities(h)
    decreases |h|
  {
    if h != [] {
      PositiveCountIsPolarityCount(h[..|h| - 1]);
      assert WellFormed(h[|h| - 1]);
    }
  }

  // ---------------------------------------------------------------------
  // The /batch-analyze results

  /** The analyses of `texts` that are not None, in input order; the i-th
      text is scored by the i-th reading. */
  function Analyses(texts: seq<string>, readings: seq<Reading>): (r: seq<Analysis>)
    requires |readings| == |texts|
    ensures |r| <= |texts|
    ensures forall k :: 0 <= k < |r| ==> WellFormed(r[k])
    decreases |texts|
  {
    if texts == [] then []
    else
      var n := |texts| - 1;
      var last := AnalyzeSentiment(texts[n], readings[n]);
      Analyses(texts[..n], readings[..n]) + (if last.Some? then [last.value] else [])
  }

  /** The positions of the non-blank texts, in increasing order. */
  function NonBlankPositions(texts: seq<string>): (ps: seq<nat>)
    ensures forall k :: 0 <= k < |ps| ==> ps[k] < |texts| && !IsBlank(texts[ps[k]])
    ensures forall k, m :: 0 <= k < m < |ps| ==> ps[k] < ps[m]
    ensures forall i :: 0 <= i < |texts| && !IsBlank(texts[i]) ==> i in ps
    decreases |texts|
  {
    if texts == [] then []
    else
      var n := |texts| - 1;
      NonBlankPositions(texts[..n]) + (if IsBlank(texts[n]) then [] else [n])
  }

  /** A position before `n` is analysed alike in the texts and in their
      first `n` texts. */
  lemma PrefixPositionAgrees(texts: seq<string>, readings: seq<Reading>, n: nat, p: nat)
    requires |readings| == |texts| && p < n <= |texts|
    ensures texts[..n][p] == texts[p] && readings[..n][p] == readings[p]
  {
  }

  /** The batch results are exactly the analyses of the non-blank texts,
      one per such text, in input order: an in-order subsequence of the
      per-text analyses from which only the None entries are gone. */
  lemma {:induction false} AnalysesAreNonBlankAnalyses(texts: seq<string>, readings: seq<Reading>)
    requires |readings| == |texts|
    ensures |Analyses(texts, readings)| == |NonBlankPositions(texts)|
    ensures forall k :: 0 <= k < |NonBlankPositions(texts)| ==>
              var p := NonBlankPositions(texts)[k];
              AnalyzeSentiment(texts[p], readings[p]) == Some(Analyses(texts, readings)[k])
    decreases |texts|
  {
    if texts != [] {
      var n := |texts| - 1;
      var texts0, readings0 := texts[..n], readings[..n];
      AnalysesAreNonBlankAnalyses(texts0, readings0);
      var ps0 := NonBlankPositions(texts0);
      var r0 := Analyses(texts0, readings0);
      var last := AnalyzeSentiment(texts[n], readings[n]);
      var ps := NonBlankPositions(texts);
      var r := Analyses(texts, readings);
      assert ps == ps0 + (if IsBlank(texts[n]) then [] else [n]);
      assert r == r0 + (if last.Some? then [last.value] else []);
      forall k | 0 <= k < |ps0|
        ensures AnalyzeSentiment(texts[ps[k]], readings[ps[k]]) == Some(r[k])
      {
        PrefixPositionAgrees(texts, readings, n, ps0[k]);
        assert ps[k] == ps0[k] && r[k] == r0[k];
      }
    }
  }
}
