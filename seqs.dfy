/**
 * Sequence helpers shared by the model: duplicate-freedom and the
 * first-occurrence order in which Python dictionaries and the head-noun
 * lists keep their elements.
 */
module Seqs {

  /** No element occurs twice. */
  ghost predicate Distinct<T>(s: seq<T>) {
    forall i, j :: 0 <= i < j < |s| ==> s[i] != s[j]
  }

  /**
   * The elements of `s` in order of first occurrence, each once: what a
   * list that is appended to only when the element is absent ends up as.
   */
  ghost function Dedup(s: seq<string>): seq<string> {
    if s == [] then []
    else
      var d := Dedup(s[..|s| - 1]);
      if s[|s| - 1] in d then d else d + [s[|s| - 1]]
  }

  /** The first-occurrence order lists every element of `s` exactly once, and nothing else. */
  lemma {:induction false} DedupFacts(s: seq<string>)
    ensures Distinct(Dedup(s))
    ensures forall x :: x in Dedup(s) <==> x in s
    ensures |Dedup(s)| <= |s|
  {
    if s != [] {
      var init, last := s[..|s| - 1], s[|s| - 1];
      assert s == init + [last];
      DedupFacts(init);
      if last !in Dedup(init) {
        DistinctSnoc(Dedup(init), last);
      }
    }
  }

  /** Appending one element to the input appends it to the result, unless it was there. */
  lemma DedupSnoc(s: seq<string>, x: string)
    ensures Dedup(s + [x]) == if x in Dedup(s) then Dedup(s) else Dedup(s) + [x]
  {
    assert (s + [x])[..|s|] == s;
  }

  /** Extending the input by the next element of `more`, as a loop over `more` does. */
  lemma DedupExtend(s: seq<string>, more: seq<string>, j: nat)
    requires j < |more|
    ensures Dedup(s + more[..j + 1])
            == if more[j] in Dedup(s + more[..j]) then Dedup(s + more[..j]) else Dedup(s + more[..j]) + [more[j]]
  {
    assert s + more[..j + 1] == (s + more[..j]) + [more[j]];
    DedupSnoc(s + more[..j], more[j]);
  }

  /** A prefix ending in `x` after `a` starts with `a` and has `x` next. */
  lemma PrefixSnoc<T>(u: seq<T>, a: seq<T>, x: T)
    requires |a| < |u| && u[..|a| + 1] == a + [x]
    ensures u[..|a|] == a && u[|a|] == x
  {
    assert u[..|a|] == u[..|a| + 1][..|a|];
  }

  /** Every prefix of a duplicate-free sequence is duplicate-free. */
  lemma DistinctPrefix<T>(s: seq<T>, k: nat)
    requires Distinct(s) && k <= |s|
    ensures Distinct(s[..k]) && forall x :: x in s[..k] ==> x in s
  {
  }

  /** The tail of a duplicate-free sequence is duplicate-free and lacks the head. */
  lemma DistinctTail<T>(s: seq<T>)
    ensures Distinct(s) && s != [] ==> s[0] !in s[1..] && Distinct(s[1..])
  {
  }

  /** Prepending an absent element keeps a sequence duplicate-free. */
  lemma DistinctCons<T>(x: T, s: seq<T>)
    ensures Distinct(s) && x !in s ==> Distinct([x] + s)
  {
    if Distinct(s) && x !in s {
      var r := [x] + s;
      forall i, j | 0 <= i < j < |r| ensures r[i] != r[j] {
        if i == 0 {
          assert r[j] == s[j - 1];
        } else {
          assert r[i] == s[i - 1] && r[j] == s[j - 1];
        }
      }
    }
  }

  /** Appending an absent element keeps a sequence duplicate-free. */
  lemma DistinctSnoc<T>(s: seq<T>, x: T)
    requires Distinct(s) && x !in s
    ensures Distinct(s + [x])
  {
    var r := s + [x];
    forall i, j | 0 <= i < j < |r| ensures r[i] != r[j] {
      if j == |s| {
        assert r[i] == s[i];
      }
    }
  }
}

/**
 * Python dictionaries as the source uses them: the keys in insertion order
 * and the entries. Assigning to an existing key keeps its position; a new
 * key is placed last.
 */
module Dicts {
  import opened Seqs

  datatype Dict<V> = Dict(keys: seq<string>, entries: map<string, V>)

  /** The keys are listed once each, and they are exactly the keys of the entries. */
  ghost predicate Valid<V>(d: Dict<V>) {
    Distinct(d.keys) && (forall k :: k in d.entries <==> k in d.keys)
  }

  /** `{}` */
  function Empty<V>(): (d: Dict<V>)
    ensures Valid(d) && d.keys == [] && d.entries == map[]
  {
    Dict([], map[])
  }

  /** `d[k] = v` */
  function Put<V>(d: Dict<V>, k: string, v: V): (r: Dict<V>)
    requires Valid(d)
    ensures Valid(r)
    ensures r.entries == d.entries[k := v]
    ensures k in d.entries ==> r.keys == d.keys
    ensures k !in d.entries ==> r.keys == d.keys + [k]
  {
    if k in d.entries then Dict(d.keys, d.entries[k := v])
    else
      DistinctSnoc(d.keys, k);
      Dict(d.keys + [k], d.entries[k := v])
  }
}
