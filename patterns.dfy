/**
 * The pattern table: for every pattern id, a PatternContext holding its
 * score and the duplicate-free list of (lower-cased) head nouns seen with
 * it, built line by line from tokenised context lines.
 */
module Patterns {
  import opened Seqs
  import opened Dicts

  /** One pattern's state: its current score and its head nouns in first-seen order. */
  datatype PatternContext = PatternContext(score: real, headNouns: seq<string>)

  /**
   * A table maps pattern ids to contexts, keeping the ids in the order they
   * were first seen: a `Dict<PatternContext>`.
   * A context is never empty (it starts with one noun) and lists each noun once. */
  ghost predicate WellFormed(t: Dict<PatternContext>) {
    Dicts.Valid(t) &&
    forall p :: p in t.entries ==> |t.entries[p].headNouns| > 0 && Distinct(t.entries[p].headNouns)
  }

  /** `str.lower` on one character, for the ASCII letters. */
  function LowerChar(c: char): char {
    if 'A' <= c <= 'Z' then (c as int + 32) as char else c
  }

  function Lower(w: string): (r: string)
    ensures |r| == |w|
    ensures forall i :: 0 <= i < |w| ==> r[i] == LowerChar(w[i])
  {
    seq(|w|, i requires 0 <= i < |w| => LowerChar(w[i]))
  }

  /** Lower-casing twice is lower-casing once. */
  lemma LowerIdempotent(w: string)
    ensures Lower(Lower(w)) == Lower(w)
  {
  }

  /** A line the scanner can read: some token is `*`, and the first token is not. */
  predicate WellFormedLine(tokens: seq<string>) {
    |tokens| > 0 && tokens[0] != "*" && "*" in tokens
  }

  /** `i` is the index of the first `*` token. */
  ghost predicate IsFirstStar(tokens: seq<string>, i: int) {
    0 <= i < |tokens| && tokens[i] == "*" && forall j :: 0 <= j < i ==> tokens[j] != "*"
  }

  /** The index of the first `*` token. */
  ghost function FirstStar(tokens: seq<string>): (i: nat)
    requires "*" in tokens
    ensures IsFirstStar(tokens, i)
  {
    if tokens[0] == "*" then 0 else 1 + FirstStar(tokens[1..])
  }

  /** The head noun of a line: the token just before the first `*`. */
  ghost function HeadNoun(tokens: seq<string>): string
    requires WellFormedLine(tokens)
  {
    tokens[FirstStar(tokens) - 1]
  }

  /** The pattern id of a line: its last token. */
  ghost function PatternId(tokens: seq<string>): string
    requires WellFormedLine(tokens)
  {
    tokens[|tokens| - 1]
  }

  /**
   * Reads one line: walks the tokens up to the first `*`, remembering the
   * last one passed, and takes the final token as the pattern id.
   */
  method ScanLine(tokens: seq<string>) returns (headNoun: string, pattern: string)
    requires WellFormedLine(tokens)
    ensures exists i :: 0 < i && IsFirstStar(tokens, i) && headNoun == tokens[i - 1]
    ensures pattern == tokens[|tokens| - 1]
  {
    var i := 0;
    headNoun := tokens[0];
    while tokens[i] != "*"
      invariant 0 <= i <= FirstStar(tokens)
      invariant 0 < i ==> headNoun == tokens[i - 1]
      decreases FirstStar(tokens) - i
    {
      headNoun := tokens[i];
      i := i + 1;
    }
    pattern := tokens[|tokens| - 1];
  }

  /**
   * Records one (head noun, pattern id) occurrence: a new id gets a fresh
   * context holding just the lower-cased noun; a known id gets the noun
   * appended unless it already lists it. AddOccurrenceEffect states the
   * effect on the pattern's context.
   */
  function AddOccurrence(t: Dict<PatternContext>, headNoun: string, pattern: string): (r: Dict<PatternContext>)
    requires WellFormed(t)
    ensures WellFormed(r)
    ensures r.keys == if pattern in t.entries then t.keys else t.keys + [pattern]
    ensures r.entries.Keys == t.entries.Keys + {pattern}
    ensures forall q :: q in t.entries && q != pattern ==> r.entries[q] == t.entries[q]
  {
    var noun := Lower(headNoun);
    if pattern in t.entries then
      var ctx := t.entries[pattern];
      if noun !in ctx.headNouns then
        DistinctSnoc(ctx.headNouns, noun);
        Put(t, pattern, ctx.(headNouns := ctx.headNouns + [noun]))
      else t
    else Put(t, pattern, PatternContext(0.0, [noun]))
  }

  /**
   * The effect of one occurrence on its pattern: a new pattern starts with
   * score 0 and exactly the lower-cased noun; a known pattern keeps its
   * score and its nouns in order, and gains the lower-cased noun at the end
   * if it was not already there.
   */
  lemma AddOccurrenceEffect(t: Dict<PatternContext>, headNoun: string, pattern: string)
    requires WellFormed(t)
    ensures var r := AddOccurrence(t, headNoun, pattern);
            pattern in r.entries && Lower(headNoun) in r.entries[pattern].headNouns
    ensures pattern !in t.entries ==>
              AddOccurrence(t, headNoun, pattern).entries[pattern] == PatternContext(0.0, [Lower(headNoun)])
    ensures pattern in t.entries ==>
              var before, after := t.entries[pattern], AddOccurrence(t, headNoun, pattern).entries[pattern];
              after.score == before.score &&
              |before.headNouns| <= |after.headNouns| <= |before.headNouns| + 1 &&
              after.headNouns[..|before.headNouns|] == before.headNouns &&
              (forall w :: w in after.headNouns <==> w in before.headNouns || w == Lower(headNoun))
  {
    var noun := Lower(headNoun);
    if pattern in t.entries {
      var before := t.entries[pattern].headNouns;
      if noun !in before {
        assert (before + [noun])[..|before|] == before;
      }
    }
  }

  /** The pattern ids of the lines, in line order. */
  ghost function IdsOf(lines: seq<seq<string>>): seq<string>
    requires forall l :: l in lines ==> WellFormedLine(l)
  {
    if lines == [] then []
    else IdsOf(lines[..|lines| - 1]) + [PatternId(lines[|lines| - 1])]
  }

  /** The lower-cased head nouns of the lines whose pattern id is `p`, in line order. */
  ghost function NounsOf(lines: seq<seq<string>>, p: string): seq<string>
    requires forall l :: l in lines ==> WellFormedLine(l)
  {
    if lines == [] then []
    else
      var last := lines[|lines| - 1];
      NounsOf(lines[..|lines| - 1], p) + (if PatternId(last) == p then [Lower(HeadNoun(last))] else [])
  }

  lemma {:induction false} NoNounsWithoutId(lines: seq<seq<string>>, p: string)
    requires forall l :: l in lines ==> WellFormedLine(l)
    requires p !in IdsOf(lines)
    ensures NounsOf(lines, p) == []
  {
    if lines != [] {
      NoNounsWithoutId(lines[..|lines| - 1], p);
    }
  }

  /** Recording one more occurrence extends that pattern's nouns by the new one, first-seen order kept. */
  lemma AddOccurrenceNouns(t: Dict<PatternContext>, headNoun: string, pattern: string, nouns: seq<string>)
    requires WellFormed(t)
    requires pattern in t.entries ==> t.entries[pattern] == PatternContext(0.0, Dedup(nouns))
    requires pattern !in t.entries ==> nouns == []
    ensures AddOccurrence(t, headNoun, pattern).entries[pattern]
            == PatternContext(0.0, Dedup(nouns + [Lower(headNoun)]))
  {
    DedupSnoc(nouns, Lower(headNoun));
  }

  /**
   * What the table of the lines `ls` is, independently of how it is built:
   * its ids are the lines' ids in first-seen order, and each id's context
   * has score 0 and the lower-cased head nouns of that id's lines, in
   * first-seen order, each once.
   */
  ghost predicate Describes(t: Dict<PatternContext>, ls: seq<seq<string>>)
    requires forall l :: l in ls ==> WellFormedLine(l)
  {
    t.keys == Dedup(IdsOf(ls)) &&
    forall p :: p in t.entries ==> t.entries[p] == PatternContext(0.0, Dedup(NounsOf(ls, p)))
  }

  /** Recording the occurrence of the next line keeps the table described by the lines read so far. */
  lemma RecordLine(lines: seq<seq<string>>, n: nat, t: Dict<PatternContext>, headNoun: string, pattern: string)
    requires forall l :: l in lines ==> WellFormedLine(l)
    requires n < |lines| && WellFormed(t) && Describes(t, lines[..n])
    requires headNoun == HeadNoun(lines[n]) && pattern == PatternId(lines[n])
    ensures Describes(AddOccurrence(t, headNoun, pattern), lines[..n + 1])
  {
    var ls, ls' := lines[..n], lines[..n + 1];
    assert ls'[..n] == ls;
    var id := PatternId(lines[n]);
    var t' := AddOccurrence(t, HeadNoun(lines[n]), id);
    assert IdsOf(ls') == IdsOf(ls) + [id];
    DedupSnoc(IdsOf(ls), id);
    forall p | p in t'.entries
      ensures t'.entries[p] == PatternContext(0.0, Dedup(NounsOf(ls', p)))
    {
      RecordLineEntry(lines, n, t, p);
    }
  }

  /** One more line adds its noun to its own pattern's nouns and to no other's. */
  lemma NounsOfStep(lines: seq<seq<string>>, n: nat, p: string)
    requires forall l :: l in lines ==> WellFormedLine(l)
    requires n < |lines|
    ensures NounsOf(lines[..n + 1], p)
            == NounsOf(lines[..n], p) + (if PatternId(lines[n]) == p then [Lower(HeadNoun(lines[n]))] else [])
  {
    assert lines[..n + 1][..n] == lines[..n];
  }

  lemma RecordLineEntry(lines: seq<seq<string>>, n: nat, t: Dict<PatternContext>, p: string)
    requires forall l :: l in lines ==> WellFormedLine(l)
    requires n < |lines| && WellFormed(t) && Describes(t, lines[..n])
    requires p in AddOccurrence(t, HeadNoun(lines[n]), PatternId(lines[n])).entries
    ensures AddOccurrence(t, HeadNoun(lines[n]), PatternId(lines[n])).entries[p]
            == PatternContext(0.0, Dedup(NounsOf(lines[..n + 1], p)))
  {
    var ls := lines[..n];
    var id := PatternId(lines[n]);
    NounsOfStep(lines, n, p);
    if p == id {
      if id !in t.entries {
        DedupFacts(IdsOf(ls));
        assert id !in IdsOf(ls);
        NoNounsWithoutId(ls, id);
      }
      AddOccurrenceNouns(t, HeadNoun(lines[n]), id, NounsOf(ls, id));
    } else {
      assert NounsOf(ls, p) + [] == NounsOf(ls, p);
    }
  }

  /**
   * `parse_intial_patterns` on already tokenised lines: the table that the
   * lines describe (see Describes).
   */
  method ParsePatterns(lines: seq<seq<string>>) returns (t: Dict<PatternContext>)
    requires forall l :: l in lines ==> WellFormedLine(l)
    ensures WellFormed(t)
    ensures t.keys == Dedup(IdsOf(lines))
    ensures forall p :: p in t.entries ==> t.entries[p] == PatternContext(0.0, Dedup(NounsOf(lines, p)))
  {
    t := Empty();
    for n := 0 to |lines|
      invariant WellFormed(t) && Describes(t, lines[..n])
    {
      var headNoun, pattern := ScanLine(lines[n]);
      assert headNoun == HeadNoun(lines[n]) && pattern == PatternId(lines[n]);
      RecordLine(lines, n, t, headNoun, pattern);
      t := AddOccurrence(t, headNoun, pattern);
    }
    assert lines[..|lines|] == lines;
  }
}
