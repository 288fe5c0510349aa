/**
 * The name of the trace file, derived from the two input paths: each
 * path's stem runs from just after its last `/` (or from the start) up to
 * its last `-` (or to index 0), taken as a Python slice, so it is empty
 * when that end does not lie after the start. The name is the seed path's
 * stem, a `-`, and the context path's stem.
 */
module OutputName {

  /** The index of the last occurrence of `c` in `p`, or -1 when `c` does not occur. */
  function LastIndexOf(p: string, c: char): (r: int)
    ensures -1 <= r < |p|
    ensures r >= 0 ==> p[r] == c
    ensures forall i :: r < i < |p| ==> p[i] != c
    ensures r == -1 <==> c !in p
  {
    if p == [] then -1
    else if p[|p| - 1] == c then |p| - 1
    else LastIndexOf(p[..|p| - 1], c)
  }

  /** The last occurrence in a one-longer prefix is the new character, if it matches, or the old last occurrence. */
  lemma LastIndexOfStep(p: string, c: char, i: nat)
    requires i < |p|
    ensures LastIndexOf(p[..i + 1], c) == if p[i] == c then i else LastIndexOf(p[..i], c)
  {
    assert p[..i + 1][..i] == p[..i];
  }

  /** Python's `p[s:e]` for indices within `p`: empty unless `s < e`. */
  function Slice(p: string, s: nat, e: nat): (r: string)
    requires s <= |p| && e <= |p|
    ensures |r| == if s < e then e - s else 0
    ensures forall i :: 0 <= i < |r| ==> r[i] == p[s + i]
  {
    if s < e then p[s..e] else []
  }

  /** Where the stem of `p` starts: one past its last `/`, or 0. */
  function StemStart(p: string): nat {
    LastIndexOf(p, '/') + 1
  }

  /** Where the stem of `p` ends: at its last `-`, or at 0 when there is none. */
  function StemEnd(p: string): nat {
    var d := LastIndexOf(p, '-');
    if d >= 0 then d else 0
  }

  /** The stem of a path. */
  function StemOf(p: string): string {
    Slice(p, StemStart(p), StemEnd(p))
  }

  /**
   * What the stem is: empty when the last `-` does not come after the last
   * `/`; otherwise exactly the characters strictly between them (or from
   * the start, with no `/`). It never contains a `/`, and it is never
   * longer than the path.
   */
  lemma StemFacts(p: string)
    ensures StemEnd(p) <= StemStart(p) ==> StemOf(p) == []
    ensures StemStart(p) < StemEnd(p) ==> StemOf(p) == p[StemStart(p)..StemEnd(p)]
    ensures '/' !in StemOf(p)
    ensures |StemOf(p)| <= |p|
  {
    var r := StemOf(p);
    forall i | 0 <= i < |r| ensures r[i] != '/' {
      assert r[i] == p[StemStart(p) + i];
    }
  }

  /**
   * The stem of a path shaped `dir/name-rest` (or `name-rest`), where
   * `rest` holds no `/` and no `-` and `name` no `/`, is `name`.
   */
  lemma {:induction false} StemOfNamedPath(dir: string, name: string, rest: string)
    requires '/' !in name && '/' !in rest && '-' !in rest
    ensures StemOf(dir + "/" + name + "-" + rest) == name
    ensures '/' !in dir ==> StemOf(name + "-" + rest) == name
  {
    var p := dir + "/" + name + "-" + rest;
    LastAt(p, '/', |dir|);
    LastAt(p, '-', |dir| + 1 + |name|);
    assert p[|dir| + 1..|dir| + 1 + |name|] == name;
    if '/' !in dir {
      var q := name + "-" + rest;
      forall i | 0 <= i < |q| ensures q[i] != '/' {
        if i > |name| {
          assert q[i] == rest[i - |name| - 1];
        }
      }
      LastAt(q, '-', |name|);
      assert q[0..|name|] == name;
    }
  }

  /** When `c` is at `k` and nowhere after it, `k` is its last index. */
  lemma LastAt(p: string, c: char, k: nat)
    requires k < |p| && p[k] == c && forall i :: k < i < |p| ==> p[i] != c
    ensures LastIndexOf(p, c) == k
  {
    var r := LastIndexOf(p, c);
  }

  /**
   * The scan of `__main__` over one path: walks every index, remembering
   * one past the latest `/` as the start and the latest `-` as the end.
   */
  method ScanPath(p: string) returns (start: nat, end: nat)
    ensures start == StemStart(p) && end == StemEnd(p)
    ensures start <= |p| && end <= |p|
  {
    start, end := 0, 0;
    for i := 0 to |p|
      invariant start == LastIndexOf(p[..i], '/') + 1
      invariant end == (if LastIndexOf(p[..i], '-') >= 0 then LastIndexOf(p[..i], '-') else 0)
    {
      LastIndexOfStep(p, '/', i);
      LastIndexOfStep(p, '-', i);
      if p[i] == '/' {
        start := i + 1;
      } else if p[i] == '-' {
        end := i;
      }
    }
    assert p[..|p|] == p;
  }

  /**
   * `out_file`: the seed path's stem, `-`, the context path's stem. Neither
   * stem holds a `/`, so the name holds none either.
   */
  method OutFile(seedsFile: string, contextsFile: string) returns (out: string)
    ensures out == StemOf(seedsFile) + "-" + StemOf(contextsFile)
    ensures '/' !in out
  {
    var seedStart, seedEnd := ScanPath(seedsFile);
    var contextStart, contextEnd := ScanPath(contextsFile);
    out := Slice(seedsFile, seedStart, seedEnd) + "-" + Slice(contextsFile, contextStart, contextEnd);
    StemFacts(seedsFile);
    StemFacts(contextsFile);
  }
}
