/** The fragment of std::string that the routing code rests on: leftmost
    occurrence search and its behaviour on suffixes. */
module Text {

  datatype Option<+T> = None | Some(value: T)

  /** p stands in s at offset i. */
  predicate OccursAt(s: string, p: string, i: nat) {
    i + |p| <= |s| && s[i..i + |p|] == p
  }

  /** i is the least offset, not before `from`, at which p stands in s. */
  ghost predicate FirstFrom(s: string, p: string, from: nat, i: nat) {
    && from <= i
    && OccursAt(s, p, i)
    && forall j: nat :: from <= j < i ==> !OccursAt(s, p, j)
  }

  function FindFrom(s: string, p: string, from: nat): (r: Option<nat>)
    requires from <= |s|
    ensures r.Some? ==> FirstFrom(s, p, from, r.value)
    ensures r.None? ==> forall j: nat :: from <= j ==> !OccursAt(s, p, j)
    decreases |s| - from
  {
    if OccursAt(s, p, from) then Some(from)
    else if from == |s| then None
    else FindFrom(s, p, from + 1)
  }

  /** std::string::find; None stands for npos. */
  function Find(s: string, p: string): (r: Option<nat>)
    ensures r.Some? ==> FirstFrom(s, p, 0, r.value)
    ensures r.None? ==> forall j: nat :: !OccursAt(s, p, j)
  {
    FindFrom(s, p, 0)
  }

  /** Searching a suffix is searching the whole from that point on. */
  lemma {:induction false} OccursInSuffix(s: string, p: string, k: nat, i: nat)
    requires k <= |s|
    ensures OccursAt(s[k..], p, i) <==> OccursAt(s, p, k + i)
  {
    if k + i + |p| <= |s| {
      assert s[k..][i..i + |p|] == s[k + i..k + i + |p|];
    }
  }

  lemma {:induction false} FirstInSuffix(s: string, p: string, k: nat, i: nat)
    requires k <= |s|
    ensures FirstFrom(s[k..], p, 0, i) <==> FirstFrom(s, p, k, k + i)
  {
    OccursInSuffix(s, p, k, i);
    forall j: nat ensures OccursAt(s[k..], p, j) <==> OccursAt(s, p, k + j) {
      OccursInSuffix(s, p, k, j);
    }
    if FirstFrom(s[k..], p, 0, i) {
      forall j: nat | k <= j < k + i ensures !OccursAt(s, p, j) {
        assert !OccursAt(s[k..], p, j - k);
        assert j == k + (j - k);
      }
    }
  }

  /** p has no occurrence in g + p before the one at the end. */
  ghost predicate FirstIn(g: string, p: string) {
    forall j: nat :: j < |g| ==> !OccursAt(g + p, p, j)
  }

  /** Whether an occurrence in a longer text is the first one is decided by
      the gap in front of it and the piece alone. */
  lemma {:induction false} FirstIsLocal(s: string, a: string, g: string, p: string, rest: string)
    requires s == a + g + p + rest
    ensures s[|a|..|a| + |g|] == g
    ensures OccursAt(s, p, |a| + |g|)
    ensures FirstFrom(s, p, |a|, |a| + |g|) <==> FirstIn(g, p)
  {
    assert s[|a| + |g|..|a| + |g| + |p|] == p;
    forall j: nat | j < |g|
      ensures OccursAt(s, p, |a| + j) <==> OccursAt(g + p, p, j)
    {
      assert s[|a| + j..|a| + j + |p|] == (g + p)[j..j + |p|];
    }
    if FirstIn(g, p) {
      forall j: nat | |a| <= j < |a| + |g| ensures !OccursAt(s, p, j) {
        assert !OccursAt(g + p, p, j - |a|);
        assert j == |a| + (j - |a|);
      }
    } else {
      var j: nat :| j < |g| && OccursAt(g + p, p, j);
      assert OccursAt(s, p, |a| + j);
    }
  }

  /** A piece that begins with a character absent from the gap is first. */
  lemma {:induction false} AbsentHeadIsFirst(g: string, p: string)
    requires p != "" && p[0] !in g
    ensures FirstIn(g, p)
  {
    var s := g + p;
    forall j: nat | j < |g| ensures !OccursAt(s, p, j) {
      assert s[j] == g[j];
      assert j + |p| <= |s| ==> s[j..j + |p|][0] == s[j];
    }
  }
}
