/**
 * The Basilisk mutual-bootstrapping engine: the pattern table, the growing
 * lexicon, the pattern pool, the candidate words with the patterns they
 * occur in, and the average-log scores, updated in place by the steps of one
 * iteration (score patterns, pool the best, collect candidates, score them,
 * promote the best into the lexicon).
 */
module Bootstrapping {
  import opened Seqs
  import opened Dicts
  import opened Ranking
  import opened Patterns
  import opened Scoring

  /** How many top patterns go to the pool (ties at this rank are kept). */
  const PoolSize: nat := 10
  /** How many new words are promoted per iteration (ties at this rank are kept). */
  const PromotionSize: nat := 5
  /** `num_iterations` when the caller gives none. */
  const DefaultIterations: nat := 5

  /** The table's scores, by pattern id. */
  function Scores(t: Dict<PatternContext>): (s: map<string, real>)
    ensures s.Keys == t.entries.Keys
    ensures forall p :: p in s ==> s[p] == t.entries[p].score
  {
    map p | p in t.entries :: t.entries[p].score
  }

  // ---------------------------------------------------------------- score_patterns

  /**
   * One pattern after score_patterns: with semfreq lexicon hits among its
   * head nouns, its score becomes RlogF(semfreq, |head nouns|) when semfreq
   * is not 0, and is left as it was otherwise.
   */
  ghost function Rescored(c: PatternContext, lexicon: seq<string>, log2: nat -> real): PatternContext
    requires |c.headNouns| > 0
  {
    var semfreq := SemFreq(lexicon, c.headNouns);
    if semfreq != 0 then c.(score := RlogF(log2, semfreq, |c.headNouns|)) else c
  }

  /**
   * Rescoring keeps the head nouns and a non-negative score; a pattern no
   * lexicon word occurs in is untouched; one hit scores 0; rescoring again
   * with the same lexicon changes nothing.
   */
  lemma RescoredFacts(c: PatternContext, lexicon: seq<string>, log2: nat -> real)
    requires Log2Laws(log2) && |c.headNouns| > 0 && c.score >= 0.0
    ensures Rescored(c, lexicon, log2).headNouns == c.headNouns
    ensures Rescored(c, lexicon, log2).score >= 0.0
    ensures (forall w :: w in lexicon ==> w !in c.headNouns) <==> Rescored(c, lexicon, log2) == c && SemFreq(lexicon, c.headNouns) == 0
    ensures SemFreq(lexicon, c.headNouns) == 1 ==> Rescored(c, lexicon, log2).score == 0.0
    ensures Rescored(Rescored(c, lexicon, log2), lexicon, log2) == Rescored(c, lexicon, log2)
  {
    SemFreqZeroIff(lexicon, c.headNouns);
  }

  /** Rescoring every pattern keeps the table well formed with non-negative scores, and keeps every pattern's nouns. */
  lemma RescoredTable(t: Dict<PatternContext>, t': Dict<PatternContext>, lexicon: seq<string>, log2: nat -> real)
    requires Log2Laws(log2) && ScoredTable(t)
    requires t'.keys == t.keys && t'.entries.Keys == t.entries.Keys
    requires forall p :: p in t'.entries ==> t'.entries[p] == Rescored(t.entries[p], lexicon, log2)
    ensures ScoredTable(t')
    ensures forall p :: p in t'.entries ==> t'.entries[p].headNouns == t.entries[p].headNouns
  {
    forall p | p in t'.entries
      ensures t'.entries[p].headNouns == t.entries[p].headNouns && t'.entries[p].score >= 0.0
    {
      RescoredFacts(t.entries[p], lexicon, log2);
    }
  }

  /**
   * Rescoring against a lexicon and then against a longer one is rescoring
   * against the longer one: a pattern with no hit in the longer lexicon had
   * none in the shorter, and a hit sets the score from the nouns alone.
   */
  lemma RescoredAfter(c: PatternContext, lexicon: seq<string>, more: seq<string>, log2: nat -> real)
    requires |c.headNouns| > 0
    ensures Rescored(Rescored(c, lexicon, log2), lexicon + more, log2) == Rescored(c, lexicon + more, log2)
  {
    SemFreqGrows(lexicon, more, c.headNouns);
  }

  /** RescoredAfter for every pattern of a table. */
  lemma RescoredChain(t: Dict<PatternContext>, t0: Dict<PatternContext>, t': Dict<PatternContext>,
                      lexicon: seq<string>, more: seq<string>, log2: nat -> real)
    requires WellFormed(t) && WellFormed(t0) && t0.entries.Keys == t.entries.Keys && t'.entries.Keys == t.entries.Keys
    requires forall p :: p in t0.entries ==> t0.entries[p] == Rescored(t.entries[p], lexicon, log2)
    requires forall p :: p in t'.entries ==> t'.entries[p] == Rescored(t0.entries[p], lexicon + more, log2)
    ensures forall p :: p in t'.entries ==> t'.entries[p] == Rescored(t.entries[p], lexicon + more, log2)
  {
    forall p | p in t'.entries ensures t'.entries[p] == Rescored(t.entries[p], lexicon + more, log2) {
      RescoredAfter(t.entries[p], lexicon, more, log2);
    }
  }

  // ---------------------------------------------------------------- sort_patterns

  /**
   * What the pool is, independently of how ties are ordered: duplicate-free
   * ids of the table, by non-increasing score; with fewer than PoolSize
   * patterns, exactly those with a non-zero score; otherwise exactly those
   * with a non-zero score at least the PoolSize-th highest score.
   */
  ghost predicate IsPoolOf(keys: seq<string>, s: map<string, real>, pool: seq<string>)
    requires Covers(s, keys)
  {
    Distinct(pool) && (forall p :: p in pool ==> p in keys) &&
    (forall i, j :: 0 <= i < j < |pool| ==> s[pool[i]] >= s[pool[j]]) &&
    (|keys| < PoolSize ==> forall p :: p in keys ==> (p in pool <==> s[p] != 0.0)) &&
    (|keys| >= PoolSize ==> forall t :: IsKthHighest(keys, s, PoolSize, t) ==>
       forall p :: p in keys ==> (p in pool <==> s[p] != 0.0 && s[p] >= t))
  }

  /**
   * The pool holds ids of the table and never a zero-scored one; when every
   * pattern scores 0 (no pattern was ever seen with a lexicon word) it is
   * empty.
   */
  lemma PoolFacts(keys: seq<string>, s: map<string, real>, pool: seq<string>)
    requires Covers(s, keys) && IsPoolOf(keys, s, pool)
    ensures forall p :: p in pool ==> p in keys && s[p] != 0.0
    ensures (forall p :: p in keys ==> s[p] == 0.0) ==> pool == []
  {
    if |keys| >= PoolSize {
      var t := KthHighestExists(keys, s, PoolSize);
    }
    if pool != [] {
      assert pool[0] in pool;
    }
  }

  /** The pool does not depend on the order of ties: two pools of one table have the same members. */
  lemma PoolDeterminedByScores(keys: seq<string>, s: map<string, real>, pool1: seq<string>, pool2: seq<string>)
    requires Covers(s, keys) && IsPoolOf(keys, s, pool1) && IsPoolOf(keys, s, pool2)
    ensures forall p :: p in pool1 <==> p in pool2
  {
    if |keys| >= PoolSize {
      var t := KthHighestExists(keys, s, PoolSize);
    }
  }

  /** The pool as the walk builds it: the top of the ascending ranking `r`, from index `lo`, reversed. */
  ghost predicate ReversedTop(r: seq<string>, lo: nat, pool: seq<string>) {
    lo <= |r| && |pool| == |r| - lo && forall j :: 0 <= j < |pool| ==> pool[j] == r[|r| - 1 - j]
  }

  lemma ReversedTopFacts(r: seq<string>, s: map<string, real>, lo: nat, pool: seq<string>)
    requires Distinct(r) && Covers(s, r) && SortedBy(r, s, false) && ReversedTop(r, lo, pool)
    ensures Distinct(pool) && (forall p :: p in pool ==> p in r)
    ensures forall i, j :: 0 <= i < j < |pool| ==> s[pool[i]] >= s[pool[j]]
    ensures forall j :: 0 <= j < |r| ==> (r[j] in pool <==> j >= lo)
  {
    var n := |r|;
    forall a, b | 0 <= a < b < |pool| ensures pool[a] != pool[b] && s[pool[a]] >= s[pool[b]] {
      assert InOrder(s[r[n - 1 - b]], s[r[n - 1 - a]], false);
    }
    forall p | p in pool ensures p in r {
      var a :| 0 <= a < |pool| && pool[a] == p;
      assert r[n - 1 - a] == p;
    }
    forall j | 0 <= j < n ensures r[j] in pool <==> j >= lo {
      if j >= lo {
        assert pool[n - 1 - j] == r[j];
      }
      if r[j] in pool {
        var a :| 0 <= a < |pool| && pool[a] == r[j];
        assert r[n - 1 - a] == r[j];
      }
    }
  }

  /**
   * Where the walk stopped is where the pool's rule stops: every entry at
   * `lo` or above is pooled by the rule, and none below it.
   */
  lemma StopIsCut(r: seq<string>, s: map<string, real>, lo: nat, t0: real)
    requires Covers(s, r) && SortedBy(r, s, false) && lo <= |r|
    requires forall x :: x in r ==> s[x] >= 0.0
    requires |r| >= PoolSize ==> t0 == s[r[|r| - PoolSize]]
    requires forall j :: lo <= j < |r| ==>
               s[r[j]] != 0.0 && (j < |r| - PoolSize ==> s[r[j]] == t0)
    requires lo > 0 ==>
               s[r[lo - 1]] == 0.0 || (lo - 1 < |r| - PoolSize && s[r[lo - 1]] != t0)
    ensures forall j :: 0 <= j < |r| ==>
              (j >= lo <==> s[r[j]] != 0.0 && (|r| >= PoolSize ==> s[r[j]] >= t0))
  {
    var n := |r|;
    forall j | 0 <= j < n ensures j >= lo <==> s[r[j]] != 0.0 && (n >= PoolSize ==> s[r[j]] >= t0) {
      if j >= lo {
        if n >= PoolSize && j > n - PoolSize {
          assert InOrder(s[r[n - PoolSize]], s[r[j]], false);
        }
      } else {
        assert r[j] in r;
        if j < lo - 1 {
          assert InOrder(s[r[j]], s[r[lo - 1]], false);
        }
        if lo - 1 < n - PoolSize {
          assert InOrder(s[r[lo - 1]], s[r[n - PoolSize]], false);
        }
      }
    }
  }

  /**
   * The walk of sort_patterns from the top of an ascending ranking `r`,
   * stopped at index `lo` (by a zero score, or by a score off the tie at
   * rank PoolSize, or by running out), has picked a pool.
   */
  lemma PoolChosen(t: Dict<PatternContext>, s: map<string, real>, r: seq<string>, lo: nat, pool: seq<string>)
    requires ScoredTable(t) && s == Scores(t) && r == SortByScore(t.keys, s, false)
    requires ReversedTop(r, lo, pool)
    requires forall j :: lo <= j < |r| ==>
               s[r[j]] != 0.0 && (j < |r| - PoolSize ==> s[r[j]] == s[r[|r| - PoolSize]])
    requires lo > 0 ==>
               s[r[lo - 1]] == 0.0 || (lo - 1 < |r| - PoolSize && s[r[lo - 1]] != s[r[|r| - PoolSize]])
    ensures IsPoolOf(t.keys, s, pool) && PoolOf(t, pool)
  {
    var t0 := if |r| >= PoolSize then s[r[|r| - PoolSize]] else 0.0;
    assert forall x :: x in t.keys ==> s[x] >= 0.0;
    assert |r| == |multiset(r)| == |multiset(t.keys)| == |t.keys|;
    PoolCut(t.keys, r, s, lo, pool, t0);
  }

  lemma PoolCut(keys: seq<string>, r: seq<string>, s: map<string, real>, lo: nat, pool: seq<string>, t0: real)
    requires Covers(s, keys) && (forall x :: x in keys ==> s[x] >= 0.0)
    requires Distinct(r) && Covers(s, r) && SortedBy(r, s, false) && multiset(r) == multiset(keys)
    requires |r| == |keys| && forall x :: x in r <==> x in keys
    requires ReversedTop(r, lo, pool)
    requires |r| >= PoolSize ==> t0 == s[r[|r| - PoolSize]]
    requires forall j :: lo <= j < |r| ==>
               s[r[j]] != 0.0 && (j < |r| - PoolSize ==> s[r[j]] == t0)
    requires lo > 0 ==>
               s[r[lo - 1]] == 0.0 || (lo - 1 < |r| - PoolSize && s[r[lo - 1]] != t0)
    ensures IsPoolOf(keys, s, pool)
  {
    var n := |r|;
    ReversedTopFacts(r, s, lo, pool);
    StopIsCut(r, s, lo, t0);
    if n >= PoolSize {
      AscendingThreshold(r, s, PoolSize);
      KthHighestPermutation(r, keys, s, PoolSize, t0);
    }
    PoolMembers(keys, r, s, lo, pool, t0);
  }

  /** The pool's membership rule, from where the walk stopped. */
  lemma PoolMembers(keys: seq<string>, r: seq<string>, s: map<string, real>, lo: nat, pool: seq<string>, t0: real)
    requires Covers(s, keys) && |r| == |keys| && forall x :: x in r <==> x in keys
    requires forall j :: 0 <= j < |r| ==> (r[j] in pool <==> j >= lo)
    requires forall j :: 0 <= j < |r| ==> (j >= lo <==> s[r[j]] != 0.0 && (|r| >= PoolSize ==> s[r[j]] >= t0))
    requires |r| >= PoolSize ==> IsKthHighest(keys, s, PoolSize, t0)
    ensures |keys| < PoolSize ==> forall p :: p in keys ==> (p in pool <==> s[p] != 0.0)
    ensures |keys| >= PoolSize ==> forall t :: IsKthHighest(keys, s, PoolSize, t) ==>
              forall p :: p in keys ==> (p in pool <==> s[p] != 0.0 && s[p] >= t)
  {
    var n := |r|;
    if n >= PoolSize {
      forall t | IsKthHighest(keys, s, PoolSize, t)
        ensures forall p :: p in keys ==> (p in pool <==> s[p] != 0.0 && s[p] >= t)
      {
        KthHighestUnique(keys, s, PoolSize, t, t0);
        forall p | p in keys ensures p in pool <==> s[p] != 0.0 && s[p] >= t {
          var j :| 0 <= j < n && r[j] == p;
        }
      }
    } else {
      forall p | p in keys ensures p in pool <==> s[p] != 0.0 {
        var j :| 0 <= j < n && r[j] == p;
      }
    }
  }

  // ---------------------------------------------------------------- get_candidates

  /** The head nouns of the pooled patterns: pool order, then each pattern's own order. */
  ghost function PooledNouns(t: Dict<PatternContext>, pool: seq<string>): seq<string>
    requires forall p :: p in pool ==> p in t.entries
  {
    if pool == [] then []
    else PooledNouns(t, pool[..|pool| - 1]) + t.entries[pool[|pool| - 1]].headNouns
  }

  /** `w` is a head noun of some pooled pattern. */
  ghost predicate InPooledPattern(t: Dict<PatternContext>, pool: seq<string>, w: string)
    requires forall p :: p in pool ==> p in t.entries
  {
    exists p :: p in pool && w in t.entries[p].headNouns
  }

  lemma {:induction false} PooledNounsMembers(t: Dict<PatternContext>, pool: seq<string>, w: string)
    requires forall p :: p in pool ==> p in t.entries
    ensures w in PooledNouns(t, pool) <==> InPooledPattern(t, pool, w)
  {
    if pool != [] {
      var init, last := pool[..|pool| - 1], pool[|pool| - 1];
      assert pool == init + [last];
      PooledNounsMembers(t, init, w);
      if w in PooledNouns(t, pool) && w in PooledNouns(t, init) {
        var p :| p in init && w in t.entries[p].headNouns;
        assert p in pool;
      }
      if InPooledPattern(t, pool, w) {
        var p :| p in pool && w in t.entries[p].headNouns;
        if p != last {
          assert p in init;
        }
      }
    }
  }

  /** `w` is a head noun of some pattern of the table. */
  ghost predicate NounOfTable(t: Dict<PatternContext>, w: string) {
    exists p :: p in t.entries && w in t.entries[p].headNouns
  }

  /** The candidate list is a dictionary of head nouns of the table, each listing ids of the table. */
  ghost predicate CandidatesOf(t: Dict<PatternContext>, cl: Dict<seq<string>>) {
    Dicts.Valid(cl) &&
    (forall w :: w in cl.entries ==> NounOfTable(t, w)) &&
    (forall w, q :: w in cl.entries && q in cl.entries[w] ==> q in t.entries)
  }

  /** A table with the same ids and head nouns supports the same candidates. */
  lemma CandidatesOfSameNouns(t: Dict<PatternContext>, t': Dict<PatternContext>, cl: Dict<seq<string>>)
    requires CandidatesOf(t, cl)
    requires t'.entries.Keys == t.entries.Keys
    requires forall p :: p in t.entries ==> t'.entries[p].headNouns == t.entries[p].headNouns
    ensures CandidatesOf(t', cl)
  {
    forall w | w in cl.entries ensures NounOfTable(t', w) {
      var p :| p in t.entries && w in t.entries[p].headNouns;
      assert p in t'.entries && w in t'.entries[p].headNouns;
    }
  }

  /**
   * The candidates that get_candidates builds from a pool of the table:
   * head nouns of the table, and exactly the head nouns of pooled patterns.
   */
  lemma PooledCandidates(t: Dict<PatternContext>, pool: seq<string>, cl: Dict<seq<string>>)
    requires PoolOf(t, pool)
    requires Dicts.Valid(cl) && cl.keys == Dedup(PooledNouns(t, pool))
    requires forall w :: w in cl.entries ==> cl.entries[w] == []
    ensures CandidatesOf(t, cl)
    ensures forall w :: w in cl.entries <==> InPooledPattern(t, pool, w)
  {
    DedupFacts(PooledNouns(t, pool));
    forall w ensures w in cl.entries <==> InPooledPattern(t, pool, w) {
      PooledNounsMembers(t, pool, w);
    }
    forall w | w in cl.entries ensures NounOfTable(t, w) {
      var p :| p in pool && w in t.entries[p].headNouns;
    }
  }

  /**
   * Appending to each candidate the ids of the table whose nouns contain it
   * keeps every candidate a noun of the table listing ids of the table, and
   * leaves no candidate without a pattern: each is a head noun of some
   * pattern of the table.
   */
  lemma CollectedIds(t: Dict<PatternContext>, cl: Dict<seq<string>>, cl': Dict<seq<string>>)
    requires Dicts.Valid(t) && Dicts.Valid(cl) && Dicts.Valid(cl') && cl'.keys == cl.keys
    requires forall w :: w in cl.entries ==> NounOfTable(t, w)
    requires forall w, q :: w in cl.entries && q in cl.entries[w] ==> q in t.entries
    requires forall w :: w in cl'.entries ==> cl'.entries[w] == cl.entries[w] + PatternsWith(t, t.keys, w)
    ensures forall w :: w in cl'.entries ==> NounOfTable(t, w)
    ensures forall w, q :: w in cl'.entries && q in cl'.entries[w] ==> q in t.entries
    ensures forall w :: w in cl'.entries ==> |cl'.entries[w]| > 0
  {
    forall w | w in cl'.entries
      ensures NounOfTable(t, w) && (forall q :: q in cl'.entries[w] ==> q in t.entries) && |cl'.entries[w]| > 0
    {
      assert w in cl.keys;
      CollectedCandidate(t, cl.entries[w], w);
    }
  }

  /** One candidate `w`, a noun of the table, after its ids are appended to `ids`. */
  lemma CollectedCandidate(t: Dict<PatternContext>, ids: seq<string>, w: string)
    requires Dicts.Valid(t) && NounOfTable(t, w) && forall q :: q in ids ==> q in t.entries
    ensures forall q :: q in ids + PatternsWith(t, t.keys, w) ==> q in t.entries
    ensures |ids + PatternsWith(t, t.keys, w)| > 0
  {
    PatternsWithMembers(t, t.keys, w);
    var p :| p in t.entries && w in t.entries[p].headNouns;
    assert p in PatternsWith(t, t.keys, w);
  }

  /** One step of get_candidates' inner loop: the next noun joins the candidates with an empty list. */
  lemma AddNounStep(cl: Dict<seq<string>>, before: seq<string>, nouns: seq<string>, j: nat)
    requires j < |nouns| && Dicts.Valid(cl) && cl.keys == Dedup(before + nouns[..j])
    requires forall w :: w in cl.entries ==> cl.entries[w] == []
    ensures var cl' := Put(cl, nouns[j], []);
            Dicts.Valid(cl') && cl'.keys == Dedup(before + nouns[..j + 1]) &&
            forall w :: w in cl'.entries ==> cl'.entries[w] == []
  {
    DedupExtend(before, nouns, j);
  }

  // ---------------------------------------------------------------- score_candidates

  /** The ids among `ks`, in order, whose head nouns contain `w`. */
  ghost function PatternsWith(t: Dict<PatternContext>, ks: seq<string>, w: string): seq<string>
    requires forall k :: k in ks ==> k in t.entries
  {
    if ks == [] then []
    else
      var last := ks[|ks| - 1];
      PatternsWith(t, ks[..|ks| - 1], w) + (if w in t.entries[last].headNouns then [last] else [])
  }

  /** PatternsWith lists exactly the ids whose nouns contain `w`, each once when the ids are distinct. */
  lemma {:induction false} PatternsWithMembers(t: Dict<PatternContext>, ks: seq<string>, w: string)
    requires forall k :: k in ks ==> k in t.entries
    ensures forall q :: q in PatternsWith(t, ks, w) <==> q in ks && w in t.entries[q].headNouns
    ensures Distinct(ks) ==> Distinct(PatternsWith(t, ks, w))
  {
    if ks != [] {
      var init, last := ks[..|ks| - 1], ks[|ks| - 1];
      assert ks == init + [last];
      PatternsWithMembers(t, init, w);
      if Distinct(ks) {
        DistinctPrefix(ks, |ks| - 1);
        if w in t.entries[last].headNouns {
          DistinctSnoc(PatternsWith(t, init, w), last);
        } else {
          assert PatternsWith(t, ks, w) == PatternsWith(t, init, w) + [];
        }
      }
    }
  }

  /** One step of the collecting loop: the next id joins a word's list exactly when it lists the word. */
  lemma PatternsWithStep(t: Dict<PatternContext>, ks: seq<string>, k: nat, w: string)
    requires forall q :: q in ks ==> q in t.entries
    requires k < |ks|
    ensures PatternsWith(t, ks[..k + 1], w)
            == PatternsWith(t, ks[..k], w) + (if w in t.entries[ks[k]].headNouns then [ks[k]] else [])
  {
    assert ks[..k + 1][..k] == ks[..k];
  }

  /** The frequencies of a candidate's patterns: each one's lexicon hits, as score_patterns counts them. */
  ghost function Freqs(lexicon: seq<string>, t: Dict<PatternContext>, ps: seq<string>): (f: seq<nat>)
    requires forall q :: q in ps ==> q in t.entries
  {
    seq(|ps|, i requires 0 <= i < |ps| => SemFreq(lexicon, t.entries[ps[i]].headNouns))
  }

  /**
   * The frequency score_candidates counts for a candidate's i-th pattern is
   * the semfreq score_patterns counted for that pattern when the lexicon is
   * the same: where it is not 0 the pattern's score is RlogF of it, and
   * where it is 0 the pattern was left as it was.
   */
  lemma FreqsAgreeWithScores(t0: Dict<PatternContext>, t: Dict<PatternContext>, lexicon: seq<string>,
                             log2: nat -> real, ps: seq<string>)
    requires WellFormed(t0) && t.entries.Keys == t0.entries.Keys
    requires forall p :: p in t.entries ==> t.entries[p] == Rescored(t0.entries[p], lexicon, log2)
    requires forall q :: q in ps ==> q in t.entries
    ensures |Freqs(lexicon, t, ps)| == |ps|
    ensures forall i :: 0 <= i < |ps| ==>
              var f, c := Freqs(lexicon, t, ps)[i], t.entries[ps[i]];
              |c.headNouns| > 0 && (f != 0 ==> c.score == RlogF(log2, f, |c.headNouns|)) &&
              (f == 0 ==> c == t0.entries[ps[i]])
  {
    forall i | 0 <= i < |ps|
      ensures var f, c := Freqs(lexicon, t, ps)[i], t.entries[ps[i]];
              |c.headNouns| > 0 && (f != 0 ==> c.score == RlogF(log2, f, |c.headNouns|)) && (f == 0 ==> c == t0.entries[ps[i]])
    {
      var c0 := t0.entries[ps[i]];
      assert t.entries[ps[i]].headNouns == c0.headNouns;
    }
  }

  /**
   * The per-pattern frequency loop of `score_candidates`: for each id,
   * how many lexicon entries are among its head nouns (the count
   * score_patterns makes for that pattern).
   */
  method Frequencies(lexicon: seq<string>, t: Dict<PatternContext>, ps: seq<string>) returns (freq: seq<nat>)
    requires forall q :: q in ps ==> q in t.entries
    ensures freq == Freqs(lexicon, t, ps)
  {
    var counts := new nat[|ps|](_ => 0);
    for i := 0 to |ps|
      invariant forall j :: 0 <= j < i ==> counts[j] == SemFreq(lexicon, t.entries[ps[j]].headNouns)
      invariant forall j :: i <= j < |ps| ==> counts[j] == 0
    {
      var nouns := t.entries[ps[i]].headNouns;
      for k := 0 to |lexicon|
        invariant counts[i] == SemFreq(lexicon[..k], nouns)
        invariant forall j :: 0 <= j < i ==> counts[j] == SemFreq(lexicon, t.entries[ps[j]].headNouns)
        invariant forall j :: i < j < |ps| ==> counts[j] == 0
      {
        assert lexicon[..k + 1][..k] == lexicon[..k];
        if lexicon[k] in nouns {
          counts[i] := counts[i] + 1;
        }
      }
      assert lexicon[..|lexicon|] == lexicon;
    }
    freq := counts[..];
  }

  /**
   * One candidate's average log frequency: its patterns' frequencies, the
   * sum of log2(f + 1) over them, divided by how many patterns it has.
   */
  method AverageOf(log2: nat -> real, lexicon: seq<string>, t: Dict<PatternContext>, ps: seq<string>) returns (avg: real)
    requires |ps| > 0 && forall q :: q in ps ==> q in t.entries
    ensures avg == AvgLog(log2, Freqs(lexicon, t, ps))
  {
    var freq := Frequencies(lexicon, t, ps);
    var sum := SumLogs(log2, freq);
    avg := sum / |ps| as real;
  }

  /**
   * The averaging loop of `score_candidates` over the candidate list `cl`,
   * from an empty avg_log: each candidate's AverageOf, in list order. It stops with `ok` false at the first
   * candidate without patterns, where the source divides by zero.
   */
  method AverageAll(log2: nat -> real, lexicon: seq<string>, t: Dict<PatternContext>, cl: Dict<seq<string>>)
    returns (ok: bool, avg: Dict<real>)
    requires Dicts.Valid(cl)
    requires forall w, q :: w in cl.entries && q in cl.entries[w] ==> q in t.entries
    ensures Dicts.Valid(avg)
    ensures ok <==> forall w :: w in cl.entries ==> |cl.entries[w]| > 0
    ensures ok ==> avg.keys == cl.keys
    ensures ok ==> forall w :: w in cl.entries ==> avg.entries[w] == AvgLog(log2, Freqs(lexicon, t, cl.entries[w]))
  {
    avg := Empty();
    var words := cl.keys;
    for k := 0 to |words|
      invariant Dicts.Valid(avg) && avg.keys == words[..k]
      invariant forall j :: 0 <= j < k ==> Averaged(log2, lexicon, t, cl, avg, words[j])
    {
      var w := words[k];
      var ps := cl.entries[w];
      if |ps| == 0 {
        assert w in cl.entries;
        return false, avg;
      }
      var a := AverageOf(log2, lexicon, t, ps);
      AveragedStep(log2, lexicon, t, cl, avg, words, k, a);
      avg := Put(avg, w, a);
    }
    AveragedAll(log2, lexicon, t, cl, avg);
    ok := true;
  }

  /** The candidate `w` has a pattern, and `avg` holds its average log frequency. */
  ghost predicate Averaged(log2: nat -> real, lexicon: seq<string>, t: Dict<PatternContext>, cl: Dict<seq<string>>,
                           avg: Dict<real>, w: string)
    requires forall w, q :: w in cl.entries && q in cl.entries[w] ==> q in t.entries
  {
    w in cl.entries && |cl.entries[w]| > 0 && w in avg.entries &&
    avg.entries[w] == AvgLog(log2, Freqs(lexicon, t, cl.entries[w]))
  }

  /** Recording the next candidate's average keeps the averaging loop's invariant. */
  lemma AveragedStep(log2: nat -> real, lexicon: seq<string>, t: Dict<PatternContext>, cl: Dict<seq<string>>,
                     avg: Dict<real>, words: seq<string>, k: nat, a: real)
    requires Dicts.Valid(cl) && words == cl.keys && k < |words|
    requires forall w, q :: w in cl.entries && q in cl.entries[w] ==> q in t.entries
    requires Dicts.Valid(avg) && avg.keys == words[..k]
    requires forall j :: 0 <= j < k ==> Averaged(log2, lexicon, t, cl, avg, words[j])
    requires |cl.entries[words[k]]| > 0 && a == AvgLog(log2, Freqs(lexicon, t, cl.entries[words[k]]))
    ensures var avg' := Put(avg, words[k], a);
            Dicts.Valid(avg') && avg'.keys == words[..k + 1] &&
            forall j :: 0 <= j < k + 1 ==> Averaged(log2, lexicon, t, cl, avg', words[j])
  {
    var w := words[k];
    assert words[..k + 1] == words[..k] + [w];
    assert w !in words[..k];
    var avg' := Put(avg, w, a);
    forall j | 0 <= j < k + 1 ensures Averaged(log2, lexicon, t, cl, avg', words[j]) {
      if j < k {
        assert words[j] != w;
      }
    }
  }

  /** When the loop has averaged every candidate, each one is averaged. */
  lemma AveragedAll(log2: nat -> real, lexicon: seq<string>, t: Dict<PatternContext>, cl: Dict<seq<string>>, avg: Dict<real>)
    requires Dicts.Valid(cl)
    requires forall w, q :: w in cl.entries && q in cl.entries[w] ==> q in t.entries
    requires avg.keys == cl.keys[..|cl.keys|]
    requires forall j :: 0 <= j < |cl.keys| ==> Averaged(log2, lexicon, t, cl, avg, cl.keys[j])
    ensures avg.keys == cl.keys
    ensures forall w :: w in cl.entries ==> |cl.entries[w]| > 0 && w in avg.entries && avg.entries[w] == AvgLog(log2, Freqs(lexicon, t, cl.entries[w]))
  {
    assert cl.keys[..|cl.keys|] == cl.keys;
    forall w | w in cl.entries
      ensures |cl.entries[w]| > 0 && w in avg.entries && avg.entries[w] == AvgLog(log2, Freqs(lexicon, t, cl.entries[w]))
    {
      var j :| 0 <= j < |cl.keys| && cl.keys[j] == w;
      assert Averaged(log2, lexicon, t, cl, avg, cl.keys[j]);
    }
  }

  // ---------------------------------------------------------------- sort_candidates

  /** The words of `r`, in order, that are not in the lexicon `lex`. */
  ghost function Unseen(r: seq<string>, lex: seq<string>): (u: seq<string>)
    ensures forall x :: x in u <==> x in r && x !in lex
    ensures |u| <= |r|
  {
    if r == [] then []
    else Unseen(r[..|r| - 1], lex) + (if r[|r| - 1] in lex then [] else [r[|r| - 1]])
  }

  /**
   * The unseen words among the first `i` words of `r`, by index: what the
   * promotion loop has added after `i` steps (UnseenUpToAll relates it to
   * Unseen).
   */
  ghost function UnseenUpTo(r: seq<string>, lex: seq<string>, i: nat): seq<string>
    requires i <= |r|
  {
    if i == 0 then [] else UnseenUpTo(r, lex, i - 1) + (if r[i - 1] in lex then [] else [r[i - 1]])
  }

  lemma {:induction false} UnseenUpToMembers(r: seq<string>, lex: seq<string>, i: nat, x: string)
    requires i <= |r|
    ensures x in UnseenUpTo(r, lex, i) ==> x !in lex && exists k :: 0 <= k < i && r[k] == x
  {
    if i > 0 {
      UnseenUpToMembers(r, lex, i - 1, x);
    }
  }

  /** With distinct words, the word at `i` is not among the unseen words before it. */
  lemma UnseenUpToFresh(r: seq<string>, lex: seq<string>, i: nat)
    requires Distinct(r) && i < |r|
    ensures r[i] !in UnseenUpTo(r, lex, i)
  {
    UnseenUpToMembers(r, lex, i, r[i]);
  }

  lemma UnseenUpToCovers(r: seq<string>, lex: seq<string>, s: map<string, real>, i: nat)
    requires Covers(s, r) && i <= |r|
    ensures Covers(s, UnseenUpTo(r, lex, i))
  {
    forall x | x in UnseenUpTo(r, lex, i) ensures x in s {
      UnseenUpToMembers(r, lex, i, x);
    }
  }

  /** The unseen words after `i` steps are a prefix of those after `j >= i` steps. */
  lemma {:induction false} UnseenUpToPrefix(r: seq<string>, lex: seq<string>, i: nat, j: nat)
    requires i <= j <= |r|
    ensures |UnseenUpTo(r, lex, i)| <= |UnseenUpTo(r, lex, j)|
    ensures UnseenUpTo(r, lex, j)[..|UnseenUpTo(r, lex, i)|] == UnseenUpTo(r, lex, i)
    decreases j
  {
    var a := UnseenUpTo(r, lex, i);
    if i == j {
      assert a[..|a|] == a;
    } else {
      UnseenUpToPrefix(r, lex, i, j - 1);
      var b := UnseenUpTo(r, lex, j - 1);
      assert UnseenUpTo(r, lex, j)[..|b|] == b;
      assert UnseenUpTo(r, lex, j)[..|a|] == b[..|a|];
    }
  }

  lemma {:induction false} UnseenUpToIsUnseen(r: seq<string>, lex: seq<string>, i: nat)
    requires i <= |r|
    ensures UnseenUpTo(r, lex, i) == Unseen(r[..i], lex)
  {
    if i == 0 {
      assert r[..0] == [];
    } else {
      UnseenUpToIsUnseen(r, lex, i - 1);
      assert r[..i][..i - 1] == r[..i - 1];
    }
  }

  /** After all of `r`, the loop has added Unseen(r, lex). */
  lemma UnseenUpToAll(r: seq<string>, lex: seq<string>)
    ensures UnseenUpTo(r, lex, |r|) == Unseen(r, lex)
  {
    UnseenUpToIsUnseen(r, lex, |r|);
    assert r[..|r|] == r;
  }

  lemma {:induction false} UnseenDistinct(r: seq<string>, lex: seq<string>)
    requires Distinct(r)
    ensures Distinct(Unseen(r, lex))
  {
    if r != [] {
      var init := r[..|r| - 1];
      DistinctPrefix(r, |r| - 1);
      UnseenDistinct(init, lex);
      if r[|r| - 1] !in lex {
        DistinctSnoc(Unseen(init, lex), r[|r| - 1]);
      } else {
        assert Unseen(r, lex) == Unseen(init, lex) + [];
      }
    }
  }

  lemma {:induction false} UnseenSorted(r: seq<string>, lex: seq<string>, s: map<string, real>, desc: bool)
    requires Covers(s, r) && SortedBy(r, s, desc)
    ensures Covers(s, Unseen(r, lex)) && SortedBy(Unseen(r, lex), s, desc)
  {
    if r != [] {
      var init, last := r[..|r| - 1], r[|r| - 1];
      UnseenSorted(init, lex, s, desc);
      var u, u' := Unseen(init, lex), Unseen(r, lex);
      if last !in lex {
        forall i, j | 0 <= i < j < |u'| ensures InOrder(s[u'[i]], s[u'[j]], desc) {
          if j == |u| {
            assert u'[i] == u[i] && u[i] in init;
            var k :| 0 <= k < |init| && init[k] == u[i];
            assert InOrder(s[r[k]], s[r[|r| - 1]], desc);
          } else {
            assert u'[i] == u[i] && u'[j] == u[j];
          }
        }
      } else {
        assert u' == u + [];
      }
    }
  }

  lemma {:induction false} UnseenCount(r: seq<string>, lex: seq<string>, x: string)
    ensures multiset(Unseen(r, lex))[x] == if x in lex then 0 else multiset(r)[x]
  {
    if r != [] {
      var init, last := r[..|r| - 1], r[|r| - 1];
      assert r == init + [last];
      UnseenCount(init, lex, x);
    }
  }

  /** Filtering out the lexicon commutes with permuting. */
  lemma UnseenPermutation(a: seq<string>, b: seq<string>, lex: seq<string>)
    requires multiset(a) == multiset(b)
    ensures multiset(Unseen(a, lex)) == multiset(Unseen(b, lex))
  {
    forall x ensures multiset(Unseen(a, lex))[x] == multiset(Unseen(b, lex))[x] {
      UnseenCount(a, lex, x);
      UnseenCount(b, lex, x);
    }
  }

  /**
   * The words sort_candidates promotes: rank the scored candidates by
   * descending score, drop those already in the lexicon, and take the
   * plateau of PromotionSize.
   */
  ghost function Promoted(avg: Dict<real>, lex: seq<string>): seq<string>
    requires Dicts.Valid(avg)
  {
    Plateau(Unseen(SortByScore(avg.keys, avg.entries, true), lex), avg.entries, PromotionSize)
  }

  /** The unseen candidates in ranked order: duplicate-free, by descending score, a permutation of the unseen keys. */
  lemma RankedUnseen(avg: Dict<real>, lex: seq<string>)
    requires Dicts.Valid(avg)
    ensures var u := Unseen(SortByScore(avg.keys, avg.entries, true), lex);
            Distinct(u) && Covers(avg.entries, u) && SortedBy(u, avg.entries, true) &&
            multiset(u) == multiset(Unseen(avg.keys, lex)) && |u| == |Unseen(avg.keys, lex)|
  {
    var s := avg.entries;
    var ranked := SortByScore(avg.keys, s, true);
    var u := Unseen(ranked, lex);
    UnseenDistinct(ranked, lex);
    UnseenSorted(ranked, lex, s, true);
    UnseenPermutation(ranked, avg.keys, lex);
    assert |u| == |multiset(u)| == |multiset(Unseen(avg.keys, lex))| == |Unseen(avg.keys, lex)|;
  }

  /**
   * The promoted words: new candidates, each once, at least
   * min(PromotionSize, k) of them when k scored candidates are not in the
   * lexicon.
   */
  lemma PromotionBounds(avg: Dict<real>, lex: seq<string>)
    requires Dicts.Valid(avg)
    ensures Distinct(Promoted(avg, lex))
    ensures forall w :: w in Promoted(avg, lex) ==> w in avg.entries && w !in lex
    ensures |Promoted(avg, lex)| >= if |Unseen(avg.keys, lex)| < PromotionSize then |Unseen(avg.keys, lex)| else PromotionSize
  {
    var u := Unseen(SortByScore(avg.keys, avg.entries, true), lex);
    RankedUnseen(avg, lex);
    PlateauPrefix(u, avg.entries, PromotionSize);
    DistinctPrefix(u, |Promoted(avg, lex)|);
  }

  /**
   * The promoted words, independently of the order of ties: when at least
   * PromotionSize scored candidates are not in the lexicon, exactly the new
   * candidates scoring at least the PromotionSize-th highest score among
   * them.
   */
  lemma PromotionIsThreshold(avg: Dict<real>, lex: seq<string>)
    requires Dicts.Valid(avg)
    ensures |Unseen(avg.keys, lex)| >= PromotionSize ==>
              forall t :: IsKthHighest(Unseen(avg.keys, lex), avg.entries, PromotionSize, t) ==>
                forall w :: w in Promoted(avg, lex) <==> w in avg.entries && w !in lex && avg.entries[w] >= t
  {
    var s := avg.entries;
    var u := Unseen(SortByScore(avg.keys, s, true), lex);
    RankedUnseen(avg, lex);
    if |u| >= PromotionSize {
      forall t | IsKthHighest(Unseen(avg.keys, lex), s, PromotionSize, t)
        ensures forall w :: w in Promoted(avg, lex) <==> w in s && w !in lex && s[w] >= t
      {
        KthHighestPermutation(Unseen(avg.keys, lex), u, s, PromotionSize, t);
        PlateauMembers(u, s, PromotionSize, t);
      }
    }
  }

  /**
   * `m` is where a promotion loop over the unseen words `u` stops: at the
   * end of `u` when it holds fewer than `k` words; otherwise after a run of
   * words tied with the `k`-th, at the first one that is not tied (or at
   * the end).
   */
  ghost predicate StopsAtPlateau(u: seq<string>, s: map<string, real>, k: nat, m: nat) {
    Covers(s, u) && 1 <= k && m <= |u| &&
    (m < k ==> m == |u|) &&
    (m >= k ==> forall j :: k <= j < m ==> s[u[j]] == s[u[k - 1]]) &&
    (k <= m < |u| ==> s[u[m]] != s[u[k - 1]])
  }

  /**
   * The promotion loop over `r` stops at `i`: the word there is unseen and,
   * past the PromotionSize-th unseen word, the first not tied with it.
   */
  lemma PromotionBreak(r: seq<string>, lex: seq<string>, s: map<string, real>, i: nat)
    requires Covers(s, r) && i < |r| && r[i] !in lex
    requires var a := UnseenUpTo(r, lex, i);
             Covers(s, a) && |a| >= PromotionSize &&
             (forall j :: PromotionSize <= j < |a| ==> s[a[j]] == s[a[PromotionSize - 1]]) &&
             s[r[i]] != s[a[PromotionSize - 1]]
    ensures UnseenUpTo(r, lex, i) == Plateau(Unseen(r, lex), s, PromotionSize)
  {
    var a := UnseenUpTo(r, lex, i);
    UnseenUpToNext(r, lex, i);
    UnseenUpToCovers(r, lex, s, |r|);
    StopAfterTies(UnseenUpTo(r, lex, |r|), a, r[i], s);
    UnseenUpToAll(r, lex);
    PlateauOf(Unseen(r, lex), s, PromotionSize, |a|);
  }

  /**
   * The promotion loop over `r` runs to the end: every unseen word is
   * added, all tied with the PromotionSize-th past it.
   */
  lemma PromotionRunOut(r: seq<string>, lex: seq<string>, s: map<string, real>, u: seq<string>)
    requires Covers(s, r) && u == UnseenUpTo(r, lex, |r|) && Covers(s, u)
    requires |u| >= PromotionSize ==> forall j :: PromotionSize <= j < |u| ==> s[u[j]] == s[u[PromotionSize - 1]]
    ensures u == Plateau(Unseen(r, lex), s, PromotionSize)
  {
    PromotionEnd(u, s);
    UnseenUpToAll(r, lex);
    PlateauOf(u, s, PromotionSize, |u|);
  }

  /** An unseen word at `i` follows the unseen words before it among all unseen words. */
  lemma UnseenUpToNext(r: seq<string>, lex: seq<string>, i: nat)
    requires i < |r| && r[i] !in lex
    ensures var a, u := UnseenUpTo(r, lex, i), UnseenUpTo(r, lex, |r|);
            |a| < |u| && u[..|a| + 1] == a + [r[i]]
  {
    UnseenUpToPrefix(r, lex, i + 1, |r|);
  }

  lemma StopAfterTies(u: seq<string>, a: seq<string>, x: string, s: map<string, real>)
    requires Covers(s, u) && |a| < |u| && u[..|a| + 1] == a + [x] && |a| >= PromotionSize
    requires Covers(s, a) && forall j :: PromotionSize <= j < |a| ==> s[a[j]] == s[a[PromotionSize - 1]]
    requires x in s && s[x] != s[a[PromotionSize - 1]]
    ensures StopsAtPlateau(u, s, PromotionSize, |a|) && u[..|a|] == a
  {
    PrefixSnoc(u, a, x);
  }

  /** A promotion loop that runs to the end of the unseen words `u`, all tied past the PromotionSize-th, added them all. */
  lemma PromotionEnd(u: seq<string>, s: map<string, real>)
    requires Covers(s, u)
    requires |u| >= PromotionSize ==> forall j :: PromotionSize <= j < |u| ==> s[u[j]] == s[u[PromotionSize - 1]]
    ensures StopsAtPlateau(u, s, PromotionSize, |u|) && u[..|u|] == u
  {
  }

  /** A promotion loop that added the unseen words `u[..m]` and stopped at `m` added the plateau. */
  lemma PlateauOf(u: seq<string>, s: map<string, real>, k: nat, m: nat)
    requires StopsAtPlateau(u, s, k, m)
    ensures Plateau(u, s, k) == u[..m]
  {
    if |u| > k {
      var run := TiedRun(u[k..], s, s[u[k - 1]]);
      assert |run| == m - k;
      assert u[..m] == u[..k] + u[k..][..m - k];
    } else {
      assert u[..m] == u;
    }
  }

  // ---------------------------------------------------------------- run

  /** The lexicon `after` is `before` with duplicate-free new words appended. */
  ghost predicate Extends(before: seq<string>, after: seq<string>) {
    |before| <= |after| && after[..|before|] == before &&
    Distinct(after[|before|..]) && forall w :: w in after[|before|..] ==> w !in before
  }

  lemma ExtendsTrans(a: seq<string>, b: seq<string>, c: seq<string>)
    requires Extends(a, b) && Extends(b, c)
    ensures Extends(a, c)
  {
    assert c[..|b|][..|a|] == c[..|a|];
    var ab, bc := b[|a|..], c[|b|..];
    assert c[|a|..] == ab + bc;
    forall i, j | 0 <= i < j < |ab + bc| ensures (ab + bc)[i] != (ab + bc)[j] {
      if i < |ab| && j >= |ab| {
        assert (ab + bc)[j] == bc[j - |ab|] && bc[j - |ab|] in bc;
        assert (ab + bc)[i] == b[|a| + i];
      }
    }
    forall w | w in ab + bc ensures w !in a {
      if w in bc {
        assert w !in b;
        assert forall x :: x in a ==> x in b;
      }
    }
  }

  lemma ExtendsBy(a: seq<string>, added: seq<string>)
    requires Distinct(added) && forall w :: w in added ==> w !in a
    ensures Extends(a, a + added)
  {
    assert (a + added)[..|a|] == a && (a + added)[|a|..] == added;
  }

  /** A well-formed table whose scores are never negative. */
  ghost predicate ScoredTable(t: Dict<PatternContext>) {
    WellFormed(t) && forall p :: p in t.entries ==> t.entries[p].score >= 0.0
  }

  /** The seeds open the lexicon. */
  ghost predicate SeedsHead(seeds: seq<string>, lexicon: seq<string>) {
    |seeds| <= |lexicon| && lexicon[..|seeds|] == seeds
  }

  /** The pool lists ids of the table, each once. */
  ghost predicate PoolOf(t: Dict<PatternContext>, pool: seq<string>) {
    Distinct(pool) && forall p :: p in pool ==> p in t.entries
  }

  /** The engine's state at one moment: table, pool, candidates, `avg_log`, lexicon, `new_words`. */
  datatype Snapshot = Snapshot(patterns: Dict<PatternContext>, pool: seq<string>, candidates: Dict<seq<string>>,
                               avgLog: Dict<real>, lexicon: seq<string>, newWords: Dict<real>)

  /** The parts of the engine's invariant that concern its state. */
  ghost predicate Coherent(s: Snapshot) {
    ScoredTable(s.patterns) && PoolOf(s.patterns, s.pool) && CandidatesOf(s.patterns, s.candidates) &&
    Dicts.Valid(s.avgLog) && Dicts.Valid(s.newWords)
  }

  /**
   * The state a round leaves behind when it started from lexicon `L`:
   * every pattern is rescored against `L` (so rescoring it again against
   * `L` changes nothing); the pool is IsPoolOf the scores, in walk order;
   * the candidates are the pooled head nouns in first-seen order, each
   * listing every table id holding it; `avg_log` holds their averages
   * against `L`; the Promoted words are appended to `L` and are exactly
   * the keys of `new_words`, with their `avg_log` scores.
   */
  ghost predicate RoundOutcome(log2: nat -> real, L: seq<string>, s: Snapshot)
    requires Coherent(s)
  {
    (forall p :: p in s.patterns.entries ==> s.patterns.entries[p] == Rescored(s.patterns.entries[p], L, log2)) &&
    IsPoolOf(s.patterns.keys, Scores(s.patterns), s.pool) &&
    (exists lo :: ReversedTop(SortByScore(s.patterns.keys, Scores(s.patterns), false), lo, s.pool)) &&
    s.candidates.keys == Dedup(PooledNouns(s.patterns, s.pool)) &&
    (forall w :: w in s.candidates.entries <==> InPooledPattern(s.patterns, s.pool, w)) &&
    s.avgLog.keys == s.candidates.keys &&
    (forall w :: w in s.candidates.entries ==>
       s.candidates.entries[w] == PatternsWith(s.patterns, s.patterns.keys, w) &&
       Distinct(s.candidates.entries[w]) && Averaged(log2, L, s.patterns, s.candidates, s.avgLog, w)) &&
    s.lexicon == L + Promoted(s.avgLog, L) &&
    s.newWords.keys == Promoted(s.avgLog, L) &&
    (forall w :: w in s.newWords.entries ==> w in s.avgLog.entries && s.newWords.entries[w] == s.avgLog.entries[w])
  }

  /**
   * One round takes state `s` to state `s'`: same ids, every pattern of
   * `s` rescored against the lexicon of `s`, and `s'` is the RoundOutcome
   * of that lexicon.
   */
  ghost predicate RoundStep(log2: nat -> real, s: Snapshot, s': Snapshot) {
    Coherent(s) && Coherent(s') &&
    s'.patterns.keys == s.patterns.keys && s'.patterns.entries.Keys == s.patterns.entries.Keys &&
    (forall p :: p in s'.patterns.entries ==> s'.patterns.entries[p] == Rescored(s.patterns.entries[p], s.lexicon, log2)) &&
    RoundOutcome(log2, s.lexicon, s')
  }

  /** Each state of `trail` is taken to the next by one round. */
  ghost predicate RoundTrail(log2: nat -> real, trail: seq<Snapshot>) {
    forall k :: 0 <= k < |trail| - 1 ==> RoundStep(log2, trail[k], trail[k + 1])
  }

  /** A trail extended by one more round is a trail. */
  lemma RoundTrailSnoc(log2: nat -> real, trail: seq<Snapshot>, s: Snapshot)
    requires |trail| > 0 && RoundTrail(log2, trail) && RoundStep(log2, trail[|trail| - 1], s)
    ensures RoundTrail(log2, trail + [s])
  {
    var t := trail + [s];
    forall k | 0 <= k < |t| - 1 ensures RoundStep(log2, t[k], t[k + 1]) {
      if k < |trail| - 1 {
        assert t[k] == trail[k] && t[k + 1] == trail[k + 1];
      }
    }
  }

  /** The bootstrapping engine. */
  class Basilisk {
    const seeds: seq<string>
    /** `np.log2`. */
    const log2: nat -> real
    var lexicon: seq<string>
    var patterns: Dict<PatternContext>
    var patternPool: seq<string>
    var candidateList: Dict<seq<string>>
    var avgLog: Dict<real>
    var newWords: Dict<real>

    /**
     * The engine's invariant: log2 obeys its laws; the table is well formed
     * with non-negative scores; the seeds head the lexicon; the pool is
     * duplicate-free ids of the table; the candidates are head nouns of the
     * table listing ids of the table; all dictionaries are valid.
     */
    ghost predicate Valid()
      reads this
    {
      Log2Laws(log2) && ScoredTable(patterns) && SeedsHead(seeds, lexicon) &&
      PoolOf(patterns, patternPool) && CandidatesOf(patterns, candidateList) &&
      Dicts.Valid(avgLog) && Dicts.Valid(newWords)
    }

    /**
     * `Basilisk(seeds_path, contexts_path)` on the already read seed lines
     * and tokenised context lines: the seeds lower-cased, the lexicon a
     * copy of them, the table of the context lines, everything else empty.
     */
    constructor (seedLines: seq<string>, lines: seq<seq<string>>, log2: nat -> real)
      requires Log2Laws(log2)
      requires forall l :: l in lines ==> WellFormedLine(l)
      ensures Valid()
      ensures this.log2 == log2
      ensures |seeds| == |seedLines| && forall i :: 0 <= i < |seeds| ==> seeds[i] == Lower(seedLines[i])
      ensures lexicon == seeds
      ensures patterns.keys == Dedup(IdsOf(lines))
      ensures forall p :: p in patterns.entries ==> patterns.entries[p] == PatternContext(0.0, Dedup(NounsOf(lines, p)))
      ensures patternPool == [] && candidateList == Empty() && avgLog == Empty() && newWords == Empty()
    {
      var table := ParsePatterns(lines);
      var lowered := seq(|seedLines|, i requires 0 <= i < |seedLines| => Lower(seedLines[i]));
      seeds := lowered;
      this.log2 := log2;
      lexicon := lowered;
      patterns := table;
      patternPool := [];
      candidateList := Empty();
      avgLog := Empty();
      newWords := Empty();
    }

    /**
     * `score_patterns`: every pattern rescored against the lexicon (see
     * Rescored), ids, order and head nouns unchanged.
     */
    method ScorePatterns()
      requires Valid()
      modifies this`patterns
      ensures Valid()
      ensures patterns.keys == old(patterns.keys) && patterns.entries.Keys == old(patterns.entries.Keys)
      ensures forall p :: p in patterns.entries ==>
                patterns.entries[p] == Rescored(old(patterns.entries[p]), lexicon, log2)
    {
      ghost var before := patterns;
      RescoreAll();
      RescoredTable(before, patterns, lexicon, log2);
      CandidatesOfSameNouns(before, patterns, candidateList);
    }

    /** The loop of `score_patterns`, over the ids in table order. */
    method RescoreAll()
      requires WellFormed(patterns)
      modifies this`patterns
      ensures Dicts.Valid(patterns)
      ensures patterns.keys == old(patterns.keys) && patterns.entries.Keys == old(patterns.entries.Keys)
      ensures forall p :: p in patterns.entries ==>
                patterns.entries[p] == Rescored(old(patterns.entries[p]), lexicon, log2)
    {
      ghost var before := patterns.entries;
      var keys := patterns.keys;
      for i := 0 to |keys|
        invariant Dicts.Valid(patterns) && patterns.keys == keys
        invariant forall j :: 0 <= j < i ==> patterns.entries[keys[j]] == Rescored(before[keys[j]], lexicon, log2)
        invariant forall j :: i <= j < |keys| ==> patterns.entries[keys[j]] == before[keys[j]]
      {
        var p := keys[i];
        var context := patterns.entries[p];
        var semfreq := CountHits(lexicon, context.headNouns);
        var totalfreq := |context.headNouns|;
        if semfreq != 0 {
          patterns := Put(patterns, p, context.(score := RlogF(log2, semfreq, totalfreq)));
        }
      }
      forall p | p in patterns.entries
        ensures patterns.entries[p] == Rescored(before[p], lexicon, log2)
      {
        var j :| 0 <= j < |keys| && keys[j] == p;
      }
    }

    /**
     * `sort_patterns`: ranks the ids by ascending score and walks down from
     * the top (see WalkPool); the pool it builds is IsPoolOf the table.
     */
    method SortPatterns()
      requires Valid()
      modifies this`patternPool
      ensures Valid()
      ensures IsPoolOf(patterns.keys, Scores(patterns), patternPool)
      ensures exists lo :: ReversedTop(SortByScore(patterns.keys, Scores(patterns), false), lo, patternPool)
    {
      var s := Scores(patterns);
      var sorted := SortByScore(patterns.keys, s, false);
      ghost var lo := WalkPool(sorted, s);
      PoolChosen(patterns, s, sorted, lo, patternPool);
    }

    /**
     * The walk of `sort_patterns` over the ascending ranking `sorted`: from
     * the top down, remember the score at rank PoolSize; stop at a score
     * below rank PoolSize that differs from it, or at a zero score; pool
     * everything before the stop. `lo` is where it stopped.
     */
    method WalkPool(sorted: seq<string>, s: map<string, real>) returns (ghost lo: nat)
      requires Covers(s, sorted)
      modifies this`patternPool
      ensures ReversedTop(sorted, lo, patternPool)
      ensures forall j :: lo <= j < |sorted| ==>
                s[sorted[j]] != 0.0 && (j < |sorted| - PoolSize ==> s[sorted[j]] == s[sorted[|sorted| - PoolSize]])
      ensures lo > 0 ==>
                s[sorted[lo - 1]] == 0.0 ||
                (lo - 1 < |sorted| - PoolSize && s[sorted[lo - 1]] != s[sorted[|sorted| - PoolSize]])
    {
      patternPool := [];
      var n := |sorted|;
      var last := 0.0;
      lo := 0;
      var i := n;
      while i > 0
        invariant 0 <= i <= n && ReversedTop(sorted, i, patternPool)
        invariant forall j :: i <= j < n ==> s[sorted[j]] != 0.0 && (j < n - PoolSize ==> s[sorted[j]] == last)
        invariant i <= n - PoolSize ==> last == s[sorted[n - PoolSize]]
      {
        i := i - 1;
        if i == n - PoolSize {
          last := s[sorted[i]];
        } else if i < n - PoolSize && s[sorted[i]] != last {
          lo := i + 1;
          break;
        }
        if s[sorted[i]] == 0.0 {
          lo := i + 1;
          break;
        }
        patternPool := patternPool + [sorted[i]];
      }
    }

    /**
     * `get_candidates`: the candidate list maps every head noun of the
     * pooled patterns, in pool order then noun order, each once, to an
     * empty list.
     */
    method GetCandidates()
      requires Valid()
      modifies this`candidateList
      ensures Valid()
      ensures candidateList.keys == Dedup(PooledNouns(patterns, patternPool))
      ensures forall w :: w in candidateList.entries <==> InPooledPattern(patterns, patternPool, w)
      ensures forall w :: w in candidateList.entries ==> candidateList.entries[w] == []
    {
      candidateList := Empty();
      AddPooledNouns();
      PooledCandidates(patterns, patternPool, candidateList);
    }

    /** The loop of `get_candidates` over the pool, starting from the empty candidate list. */
    method AddPooledNouns()
      requires forall p :: p in patternPool ==> p in patterns.entries
      requires candidateList == Empty()
      modifies this`candidateList
      ensures Dicts.Valid(candidateList) && candidateList.keys == Dedup(PooledNouns(patterns, patternPool))
      ensures forall w :: w in candidateList.entries ==> candidateList.entries[w] == []
    {
      for k := 0 to |patternPool|
        invariant Dicts.Valid(candidateList)
        invariant candidateList.keys == Dedup(PooledNouns(patterns, patternPool[..k]))
        invariant forall w :: w in candidateList.entries ==> candidateList.entries[w] == []
      {
        assert patternPool[..k + 1][..k] == patternPool[..k];
        AddHeadNouns(patternPool[k], PooledNouns(patterns, patternPool[..k]));
      }
      assert patternPool[..|patternPool|] == patternPool;
    }

    /**
     * The inner loop of `get_candidates`: every head noun of `p` becomes a
     * candidate with an empty list. `before` are the nouns visited so far.
     */
    method AddHeadNouns(p: string, ghost before: seq<string>)
      requires p in patterns.entries
      requires Dicts.Valid(candidateList) && candidateList.keys == Dedup(before)
      requires forall w :: w in candidateList.entries ==> candidateList.entries[w] == []
      modifies this`candidateList
      ensures Dicts.Valid(candidateList) && candidateList.keys == Dedup(before + patterns.entries[p].headNouns)
      ensures forall w :: w in candidateList.entries ==> candidateList.entries[w] == []
    {
      var nouns := patterns.entries[p].headNouns;
      var cl := candidateList;
      assert before + nouns[..0] == before;
      for j := 0 to |nouns|
        invariant Dicts.Valid(cl) && cl.keys == Dedup(before + nouns[..j])
        invariant forall w :: w in cl.entries ==> cl.entries[w] == []
      {
        AddNounStep(cl, before, nouns, j);
        cl := Put(cl, nouns[j], []);
      }
      assert nouns[..|nouns|] == nouns;
      candidateList := cl;
    }

    /**
     * The collecting half of `score_candidates`: every candidate's list is
     * extended by the ids of the table, in table order, whose head nouns
     * contain it.
     */
    method CollectPatterns()
      requires Dicts.Valid(patterns) && Dicts.Valid(candidateList)
      modifies this`candidateList
      ensures Dicts.Valid(candidateList)
      ensures candidateList.keys == old(candidateList.keys)
      ensures forall w :: w in candidateList.entries ==>
                candidateList.entries[w] == old(candidateList.entries[w]) + PatternsWith(patterns, patterns.keys, w)
    {
      var ks := patterns.keys;
      ghost var start := candidateList;
      for k := 0 to |ks|
        invariant Dicts.Valid(candidateList) && candidateList.keys == start.keys
        invariant forall w :: w in candidateList.entries ==>
                    candidateList.entries[w] == start.entries[w] + PatternsWith(patterns, ks[..k], w)
      {
        AddToCandidates(ks[k]);
        forall w | w in candidateList.entries
          ensures candidateList.entries[w] == start.entries[w] + PatternsWith(patterns, ks[..k + 1], w)
        {
          PatternsWithStep(patterns, ks, k, w);
        }
      }
      assert ks[..|ks|] == ks;
    }

    /** One pass of the inner loop: the pattern `p` is appended to the list of every candidate among its head nouns. */
    method AddToCandidates(p: string)
      requires p in patterns.entries && Dicts.Valid(candidateList)
      modifies this`candidateList
      ensures Dicts.Valid(candidateList) && candidateList.keys == old(candidateList.keys)
      ensures forall w :: w in candidateList.entries ==>
                candidateList.entries[w]
                == old(candidateList.entries[w]) + (if w in patterns.entries[p].headNouns then [p] else [])
    {
      var nouns := patterns.entries[p].headNouns;
      var words := candidateList.keys;
      ghost var mid := candidateList.entries;
      for j := 0 to |words|
        invariant Dicts.Valid(candidateList) && candidateList.keys == words
        invariant forall i :: 0 <= i < j ==>
                    candidateList.entries[words[i]] == mid[words[i]] + (if words[i] in nouns then [p] else [])
        invariant forall i :: j <= i < |words| ==> candidateList.entries[words[i]] == mid[words[i]]
      {
        var w := words[j];
        if w in nouns {
          candidateList := Put(candidateList, w, candidateList.entries[w] + [p]);
        }
      }
      forall w | w in candidateList.entries
        ensures candidateList.entries[w] == mid[w] + (if w in nouns then [p] else [])
      {
        var i :| 0 <= i < |words| && words[i] == w;
      }
    }

    /**
     * The averaging half of `score_candidates`, with the reset of avg_log:
     * each candidate's average log frequency over its patterns (see
     * AverageAll). `ok` is false exactly when some candidate has no
     * pattern, where the source divides by zero.
     */
    method AverageLogs() returns (ok: bool)
      requires Dicts.Valid(candidateList)
      requires forall w, q :: w in candidateList.entries && q in candidateList.entries[w] ==> q in patterns.entries
      modifies this`avgLog
      ensures Dicts.Valid(avgLog)
      ensures ok <==> forall w :: w in candidateList.entries ==> |candidateList.entries[w]| > 0
      ensures ok ==> avgLog.keys == candidateList.keys
      ensures ok ==> forall w :: w in candidateList.entries ==>
                avgLog.entries[w] == AvgLog(log2, Freqs(lexicon, patterns, candidateList.entries[w]))
    {
      var cl := candidateList;
      ok, avgLog := AverageAll(log2, lexicon, patterns, cl);
      assert candidateList == cl;
    }

    /**
     * `score_candidates`: every candidate gets the ids of all table
     * patterns whose head nouns contain it, and its average log frequency
     * over them. The source's division by the number of patterns never
     * divides by zero: every candidate is a head noun of some pattern.
     */
    method ScoreCandidates()
      requires Valid()
      modifies this`candidateList, this`avgLog
      ensures Valid()
      ensures candidateList.keys == old(candidateList.keys)
      ensures forall w :: w in candidateList.entries ==>
                candidateList.entries[w] == old(candidateList.entries[w]) + PatternsWith(patterns, patterns.keys, w)
      ensures avgLog.keys == candidateList.keys
      ensures forall w :: w in candidateList.entries ==>
                |candidateList.entries[w]| > 0 &&
                avgLog.entries[w] == AvgLog(log2, Freqs(lexicon, patterns, candidateList.entries[w]))
    {
      CollectPatterns();
      CollectedIds(patterns, old(candidateList), candidateList);
      var ok := AverageLogs();
      assert ok;
    }

    /**
     * `sort_candidates`: ranks the scored candidates by descending score
     * and appends to the lexicon the Promoted words, recording each with its
     * score in new_words.
     */
    method SortCandidates()
      requires Valid()
      modifies this`lexicon, this`newWords
      ensures Valid()
      ensures lexicon == old(lexicon) + Promoted(avgLog, old(lexicon))
      ensures newWords.keys == Promoted(avgLog, old(lexicon))
      ensures forall w :: w in newWords.entries ==> w in avgLog.entries && newWords.entries[w] == avgLog.entries[w]
    {
      newWords := Empty();
      var ranked := SortByScore(avgLog.keys, avgLog.entries, true);
      ghost var lex := lexicon;
      PromoteRanked(ranked, avgLog.entries);
      PromotionBounds(avgLog, lex);
      ExtendsBy(lex, Promoted(avgLog, lex));
      assert (lex + Promoted(avgLog, lex))[..|seeds|] == lex[..|seeds|];
    }

    /**
     * The loop of `sort_candidates` over the ranking `ranked`: each word not
     * yet in the lexicon is appended to it and to new_words; remember the
     * score of the PromotionSize-th such word and stop at the first later
     * one whose score differs from it. The words added are the Plateau of
     * the ranking's unseen words.
     */
    method PromoteRanked(ranked: seq<string>, s: map<string, real>)
      requires Covers(s, ranked) && Distinct(ranked) && newWords == Empty()
      modifies this`lexicon, this`newWords
      ensures lexicon == old(lexicon) + Plateau(Unseen(ranked, old(lexicon)), s, PromotionSize)
      ensures Dicts.Valid(newWords) && newWords.keys == Plateau(Unseen(ranked, old(lexicon)), s, PromotionSize)
      ensures forall w :: w in newWords.entries ==> w in s && newWords.entries[w] == s[w]
    {
      ghost var lex := lexicon;
      var grown, found := lexicon, newWords;
      var i := 0;
      var count := 0;
      var last := 0.0;
      ghost var added := [];
      while i < |ranked|
        invariant 0 <= i <= |ranked|
        invariant added == UnseenUpTo(ranked, lex, i)
        invariant grown == lex + added && count == |grown| - |lex|
        invariant Dicts.Valid(found) && found.keys == added
        invariant forall w :: w in found.entries ==> w in s && found.entries[w] == s[w]
        invariant count >= PromotionSize ==> last == s[added[PromotionSize - 1]]
        invariant forall j :: PromotionSize <= j < count ==> s[added[j]] == last
      {
        var w := ranked[i];
        UnseenUpToFresh(ranked, lex, i);
        if w !in grown {
          if count == PromotionSize - 1 {
            last := s[ranked[i]];
          } else if count > PromotionSize - 1 && s[ranked[i]] != last {
            PromotionBreak(ranked, lex, s, i);
            lexicon, newWords := grown, found;
            return;
          }
          grown := grown + [w];
          found := Put(found, w, s[w]);
          added := added + [w];
          count := count + 1;
        }
        i := i + 1;
      }
      UnseenUpToCovers(ranked, lex, s, |ranked|);
      PromotionRunOut(ranked, lex, s, added);
      lexicon, newWords := grown, found;
    }

    /**
     * One round of `run`: the five steps in order, in two halves. Every
     * pattern is rescored against the lexicon as it was at the start of the
     * round, and the state is RoundFrom that lexicon: the pool is IsPoolOf
     * the new scores, in walk order; the candidates are exactly the pooled
     * head nouns in first-seen order, each listing the ids of all patterns
     * holding it, in table order, each once and at least one; each
     * candidate's average log is over the frequencies against that same
     * lexicon; the Promoted words are appended to it and make up `new_words`.
     */
    method Round()
      requires Valid()
      modifies this
      ensures Valid()
      ensures patterns.keys == old(patterns.keys) && patterns.entries.Keys == old(patterns.entries.Keys)
      ensures forall p :: p in patterns.entries ==>
                patterns.entries[p] == Rescored(old(patterns.entries[p]), old(lexicon), log2)
      ensures RoundFrom(old(lexicon))
      ensures RoundStep(log2, old(State()), State())
    {
      ghost var L, t0 := lexicon, patterns;
      PatternSteps();
      CandidateSteps();
      forall w | w in candidateList.entries ensures Distinct(candidateList.entries[w]) {
        PatternsWithMembers(patterns, patterns.keys, w);
      }
      RoundSettles(L, t0);
    }

    /** The pattern half of a round: `score_patterns`, `sort_patterns`, `get_candidates`. */
    method PatternSteps()
      requires Valid()
      modifies this`patterns, this`patternPool, this`candidateList
      ensures Valid()
      ensures patterns.keys == old(patterns.keys) && patterns.entries.Keys == old(patterns.entries.Keys)
      ensures forall p :: p in patterns.entries ==>
                patterns.entries[p] == Rescored(old(patterns.entries[p]), lexicon, log2)
      ensures IsPoolOf(patterns.keys, Scores(patterns), patternPool)
      ensures exists lo :: ReversedTop(SortByScore(patterns.keys, Scores(patterns), false), lo, patternPool)
      ensures candidateList.keys == Dedup(PooledNouns(patterns, patternPool))
      ensures forall w :: w in candidateList.entries <==> InPooledPattern(patterns, patternPool, w)
      ensures forall w :: w in candidateList.entries ==> candidateList.entries[w] == []
    {
      ScorePatterns();
      SortPatterns();
      GetCandidates();
    }

    /** The candidate half of a round: `score_candidates`, `sort_candidates`. */
    method CandidateSteps()
      requires Valid()
      modifies this`candidateList, this`avgLog, this`lexicon, this`newWords
      ensures Valid()
      ensures candidateList.keys == old(candidateList.keys)
      ensures forall w :: w in candidateList.entries ==>
                candidateList.entries[w] == old(candidateList.entries[w]) + PatternsWith(patterns, patterns.keys, w) &&
                |candidateList.entries[w]| > 0
      ensures avgLog.keys == candidateList.keys
      ensures forall w :: w in candidateList.entries ==>
                avgLog.entries[w] == AvgLog(log2, Freqs(old(lexicon), patterns, candidateList.entries[w]))
      ensures lexicon == old(lexicon) + Promoted(avgLog, old(lexicon))
      ensures newWords.keys == Promoted(avgLog, old(lexicon))
      ensures forall w :: w in newWords.entries ==> w in avgLog.entries && newWords.entries[w] == avgLog.entries[w]
    {
      ScoreCandidates();
      SortCandidates();
    }

    /** The engine's current state. */
    ghost function State(): Snapshot
      reads this
    {
      Snapshot(patterns, patternPool, candidateList, avgLog, lexicon, newWords)
    }

    /** The current state is what a round makes of lexicon `L` (see RoundOutcome). */
    ghost predicate RoundFrom(L: seq<string>)
      requires Valid()
      reads this
    {
      RoundOutcome(log2, L, State())
    }

    /** The facts the two halves of a round establish, taken together: the state is RoundFrom `L`. */
    lemma RoundSettles(L: seq<string>, t0: Dict<PatternContext>)
      requires Valid() && ScoredTable(t0) && t0.entries.Keys == patterns.entries.Keys
      requires forall p :: p in patterns.entries ==> patterns.entries[p] == Rescored(t0.entries[p], L, log2)
      requires IsPoolOf(patterns.keys, Scores(patterns), patternPool)
      requires exists lo :: ReversedTop(SortByScore(patterns.keys, Scores(patterns), false), lo, patternPool)
      requires candidateList.keys == Dedup(PooledNouns(patterns, patternPool))
      requires forall w :: w in candidateList.entries <==> InPooledPattern(patterns, patternPool, w)
      requires forall w :: w in candidateList.entries ==>
                 candidateList.entries[w] == PatternsWith(patterns, patterns.keys, w) &&
                 Distinct(candidateList.entries[w]) && |candidateList.entries[w]| > 0
      requires avgLog.keys == candidateList.keys
      requires forall w :: w in candidateList.entries ==>
                 avgLog.entries[w] == AvgLog(log2, Freqs(L, patterns, candidateList.entries[w]))
      requires lexicon == L + Promoted(avgLog, L)
      requires newWords.keys == Promoted(avgLog, L)
      requires forall w :: w in newWords.entries ==> w in avgLog.entries && newWords.entries[w] == avgLog.entries[w]
      ensures RoundFrom(L)
    {
      forall p | p in patterns.entries
        ensures patterns.entries[p] == Rescored(patterns.entries[p], L, log2)
      {
        RescoredFacts(t0.entries[p], L, log2);
      }
      forall w | w in candidateList.entries ensures Averaged(log2, L, patterns, candidateList, avgLog, w) {
      }
    }

    /**
     * `run` without its trace: `numIterations` rounds of the five steps.
     * There is a trail of `numIterations + 1` states from the initial one to
     * the final one, each taken to the next by one RoundStep. The table's
     * ids and head nouns never change, and the lexicon only grows: new
     * words are appended once each and were not in it before. Zero rounds
     * leave the lexicon, the table and the pool as they were; otherwise the
     * final state is what the last round made of a lexicon `L` extending
     * the initial one, and every pattern is the initial one rescored
     * against `L`.
     */
    method Run(numIterations: nat)
      requires Valid()
      modifies this
      ensures Valid()
      ensures Extends(old(lexicon), lexicon)
      ensures patterns.keys == old(patterns.keys) && patterns.entries.Keys == old(patterns.entries.Keys)
      ensures forall p :: p in patterns.entries ==> patterns.entries[p].headNouns == old(patterns.entries[p].headNouns)
      ensures numIterations == 0 ==> lexicon == old(lexicon) && patterns == old(patterns) && patternPool == old(patternPool)
      ensures numIterations > 0 ==>
                exists L :: Extends(old(lexicon), L) && RoundFrom(L) &&
                  forall p :: p in patterns.entries ==> patterns.entries[p] == Rescored(old(patterns.entries[p]), L, log2)
      ensures exists trail: seq<Snapshot> ::
                |trail| == numIterations + 1 && trail[0] == old(State()) && trail[numIterations] == State() &&
                RoundTrail(log2, trail)
    {
      ExtendsBy(lexicon, []);
      assert lexicon + [] == lexicon;
      ghost var L := lexicon;
      ghost var trail := [State()];
      for i := 0 to numIterations
        invariant Valid() && Extends(old(lexicon), lexicon)
        invariant patterns.keys == old(patterns.keys) && patterns.entries.Keys == old(patterns.entries.Keys)
        invariant forall p :: p in patterns.entries ==> patterns.entries[p].headNouns == old(patterns.entries[p].headNouns)
        invariant i == 0 ==> lexicon == old(lexicon) && patterns == old(patterns) && patternPool == old(patternPool) && L == lexicon
        invariant i > 0 ==> Extends(old(lexicon), L) && RoundFrom(L)
        invariant i > 0 ==> forall p :: p in patterns.entries ==> patterns.entries[p] == Rescored(old(patterns.entries[p]), L, log2)
        invariant |trail| == i + 1 && trail[0] == old(State()) && trail[i] == State()
        invariant RoundTrail(log2, trail)
      {
        ghost var before, t0, s0 := lexicon, patterns, State();
        ghost var more := if i > 0 then Promoted(avgLog, L) else [];
        if i > 0 {
          assert RoundOutcome(log2, L, State());
        } else {
          assert L + more == L;
        }
        assert before == L + more;
        Round();
        forall p | p in patterns.entries ensures patterns.entries[p].headNouns == t0.entries[p].headNouns {
          RescoredFacts(t0.entries[p], before, log2);
        }
        if i > 0 {
          RescoredChain(old(patterns), t0, patterns, L, more, log2);
        }
        assert lexicon == before + Promoted(avgLog, before);
        PromotionBounds(avgLog, before);
        ExtendsBy(before, Promoted(avgLog, before));
        ExtendsTrans(old(lexicon), before, lexicon);
        L := before;
        RoundTrailSnoc(log2, trail, State());
        trail := trail + [State()];
      }
      if numIterations > 0 {
        assert Extends(old(lexicon), L) && RoundFrom(L);
      }
    }

    /** `run(file_name)` without its trace: DefaultIterations rounds, stated as in Run. */
    method RunDefault()
      requires Valid()
      modifies this
      ensures Valid()
      ensures Extends(old(lexicon), lexicon)
      ensures patterns.keys == old(patterns.keys) && patterns.entries.Keys == old(patterns.entries.Keys)
      ensures forall p :: p in patterns.entries ==> patterns.entries[p].headNouns == old(patterns.entries[p].headNouns)
      ensures exists L :: Extends(old(lexicon), L) && RoundFrom(L) &&
                forall p :: p in patterns.entries ==> patterns.entries[p] == Rescored(old(patterns.entries[p]), L, log2)
      ensures exists trail: seq<Snapshot> ::
                |trail| == DefaultIterations + 1 && trail[0] == old(State()) && trail[DefaultIterations] == State() &&
                RoundTrail(log2, trail)
    {
      Run(DefaultIterations);
    }
  }
}
