/**
 * The two scores of the bootstrapping loop: RlogF for a pattern, from how
 * many lexicon words it was seen with, and the average log frequency for a
 * candidate word. `np.log2` is a parameter `log2` of which only two laws
 * are assumed: log2(1) = 0 and log2(n) >= 0 for n >= 1.
 */
module Scoring {

  /** The laws of `np.log2` the model relies on. */
  ghost predicate Log2Laws(log2: nat -> real) {
    log2(1) == 0.0 && forall n: nat :: n >= 1 ==> log2(n) >= 0.0
  }

  /**
   * How many lexicon entries, counted with repetition, are among the head
   * nouns: `semfreq` of score_patterns and `freq[i]` of score_candidates.
   */
  ghost function SemFreq(lexicon: seq<string>, nouns: seq<string>): nat {
    if lexicon == [] then 0
    else SemFreq(lexicon[..|lexicon| - 1], nouns) + (if lexicon[|lexicon| - 1] in nouns then 1 else 0)
  }

  /** The counting loop over the lexicon. */
  method CountHits(lexicon: seq<string>, nouns: seq<string>) returns (semfreq: nat)
    ensures semfreq == SemFreq(lexicon, nouns)
  {
    semfreq := 0;
    for k := 0 to |lexicon|
      invariant semfreq == SemFreq(lexicon[..k], nouns)
    {
      assert lexicon[..k + 1][..k] == lexicon[..k];
      if lexicon[k] in nouns {
        semfreq := semfreq + 1;
      }
    }
    assert lexicon[..|lexicon|] == lexicon;
  }

  /** The count splits over a split lexicon. */
  lemma {:induction false} SemFreqConcat(a: seq<string>, b: seq<string>, nouns: seq<string>)
    ensures SemFreq(a + b, nouns) == SemFreq(a, nouns) + SemFreq(b, nouns)
    decreases |b|
  {
    if b == [] {
      assert a + b == a;
    } else {
      var b' := b[..|b| - 1];
      assert (a + b)[..|a + b| - 1] == a + b';
      SemFreqConcat(a, b', nouns);
    }
  }

  /** A pattern scores no hit exactly when no lexicon entry is among its head nouns. */
  lemma {:induction false} SemFreqZeroIff(lexicon: seq<string>, nouns: seq<string>)
    ensures SemFreq(lexicon, nouns) == 0 <==> forall w :: w in lexicon ==> w !in nouns
  {
    if lexicon != [] {
      var init := lexicon[..|lexicon| - 1];
      assert lexicon == init + [lexicon[|lexicon| - 1]];
      SemFreqZeroIff(init, nouns);
    }
  }

  /** Hits are bounded by the lexicon's length. */
  lemma {:induction false} SemFreqBound(lexicon: seq<string>, nouns: seq<string>)
    ensures SemFreq(lexicon, nouns) <= |lexicon|
  {
    if lexicon != [] {
      SemFreqBound(lexicon[..|lexicon| - 1], nouns);
    }
  }

  /** A growing lexicon never loses hits. */
  lemma SemFreqGrows(lexicon: seq<string>, more: seq<string>, nouns: seq<string>)
    ensures SemFreq(lexicon, nouns) <= SemFreq(lexicon + more, nouns)
  {
    SemFreqConcat(lexicon, more, nouns);
  }

  /** `rlogf`: (semfreq / totalfreq) * log2(semfreq). */
  function RlogF(log2: nat -> real, semfreq: nat, totalfreq: nat): (r: real)
    requires totalfreq > 0
    ensures Log2Laws(log2) && semfreq >= 1 ==> r >= 0.0
    ensures Log2Laws(log2) && semfreq == 1 ==> r == 0.0
  {
    var ratio := semfreq as real / totalfreq as real;
    assert ratio >= 0.0;
    assert Log2Laws(log2) && semfreq >= 1 ==> log2(semfreq) >= 0.0;
    ratio * log2(semfreq)
  }

  /** The running sum of the average-log loop: log2(f + 1) over the frequencies. */
  ghost function SumLog(log2: nat -> real, freqs: seq<nat>): real {
    if freqs == [] then 0.0
    else SumLog(log2, freqs[..|freqs| - 1]) + log2(freqs[|freqs| - 1] + 1)
  }

  /** The summing loop of the average log. */
  method SumLogs(log2: nat -> real, freqs: seq<nat>) returns (sum: real)
    ensures sum == SumLog(log2, freqs)
  {
    sum := 0.0;
    for k := 0 to |freqs|
      invariant sum == SumLog(log2, freqs[..k])
    {
      assert freqs[..k + 1][..k] == freqs[..k];
      sum := sum + log2(freqs[k] + 1);
    }
    assert freqs[..|freqs|] == freqs;
  }

  /** The sum of logs is never negative, and is 0 when no frequency is positive. */
  lemma {:induction false} SumLogBounds(log2: nat -> real, freqs: seq<nat>)
    requires Log2Laws(log2)
    ensures SumLog(log2, freqs) >= 0.0
    ensures (forall i :: 0 <= i < |freqs| ==> freqs[i] == 0) ==> SumLog(log2, freqs) == 0.0
  {
    if freqs != [] {
      SumLogBounds(log2, freqs[..|freqs| - 1]);
      assert log2(freqs[|freqs| - 1] + 1) >= 0.0;
    }
  }

  /** The average log frequency of a candidate with one frequency per pattern. */
  ghost function AvgLog(log2: nat -> real, freqs: seq<nat>): real
    requires |freqs| > 0
  {
    SumLog(log2, freqs) / |freqs| as real
  }

  /** A candidate's average log is never negative, and is 0 when none of its patterns hits the lexicon. */
  lemma AvgLogBounds(log2: nat -> real, freqs: seq<nat>)
    requires Log2Laws(log2) && |freqs| > 0
    ensures AvgLog(log2, freqs) >= 0.0
    ensures (forall i :: 0 <= i < |freqs| ==> freqs[i] == 0) ==> AvgLog(log2, freqs) == 0.0
  {
    SumLogBounds(log2, freqs);
  }
}
