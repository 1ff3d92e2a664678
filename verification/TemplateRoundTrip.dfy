/** Matching and extraction together: filling a template and taking the
    values out again undo each other. */
module TemplateRoundTrip {
  import opened Text
  import opened RegexRange
  import opened Placement
  import opened RequestMappers
  import opened HttpTargetParser

  /** Templates that capture: at least one placeholder and a trailing literal. */
  predicate Capturing(t: string) {
    |Unmatched(t)| > 1 && |Unmatched(t)| == |Matched(t)| + 1
  }

  /** The offset-accumulating scan went through without a miss and its last
      piece ends at the end of the path. */
  predicate ScanEnds(ps: seq<string>, path: string)
    requires |ps| >= 1
  {
    var acc := Accumulated(ps, path, |ps|);
    acc.Some? && NoMiss(acc.value.0) && acc.value.0[|ps| - 1].1 == |path|
  }

  lemma {:induction false} ScanEndsIffLeftmost(ps: seq<string>, path: string)
    requires |ps| >= 1
    ensures ScanEnds(ps, path) <==>
            exists offs: seq<nat> :: LeftmostAll(ps, path, offs) && Start(ps, offs, |offs|) == |path|
  {
    if ScanEnds(ps, path) {
      var offs := NoMissIsLeftmost(ps, path, |ps|);
      assert LeftmostAll(ps, path, offs);
    }
    if offs: seq<nat> :| LeftmostAll(ps, path, offs) && Start(ps, offs, |offs|) == |path| {
      AccumulatedIsLeftmost(ps, path, offs, |ps|);
      LeftmostPlaces(ps, path, offs);
      EndsMissNothing(ps, path, offs, Accumulated(ps, path, |ps|).value.0);
    }
  }

  /** The two scans agree: the string-cutting matcher accepts exactly if the
      offset-accumulating scan of the extraction misses no piece and ends at
      the end of the URL; the offsets are then the leftmost placement. */
  lemma {:induction false} ScansAgree(k: RequestMapper, u: RequestMapper)
    requires |Unmatched(k.path)| > 1
    ensures KeyMatches(k, u) <==> k.verb == u.verb && ScanEnds(Unmatched(k.path), u.path)
    ensures KeyMatches(k, u) <==>
            && k.verb == u.verb
            && exists offs: seq<nat> :: LeftmostAll(Unmatched(k.path), u.path, offs)
                                        && Start(Unmatched(k.path), offs, |offs|) == |u.path|
    ensures KeyMatches(k, u) ==> Scannable(k.path, u.path)
  {
    TightIffLeftmostEnds(Unmatched(k.path), u.path);
    ScanEndsIffLeftmost(Unmatched(k.path), u.path);
  }

  lemma {:induction false} WovenIsGapThenFill(gaps: seq<string>, ps: seq<string>)
    requires |gaps| == |ps| >= 1
    ensures Woven(gaps, ps, |ps|) == gaps[0] + Fill(ps, gaps[1..])
  {
    var n := |ps| - 1;
    assert gaps == [gaps[0]] + gaps[1..] && ps == [ps[0]] + ps[1..];
    WovenCons(gaps[0], ps[0], gaps[1..], ps[1..], n);
    WovenCons("", ps[0], gaps[1..], ps[1..], n);
    var w := Woven(gaps[1..], ps[1..], n);
    assert gaps[0] + ps[0] + w == gaps[0] + ("" + ps[0] + w);
  }

  lemma {:induction false} NamedValuesInjective(names: seq<string>, a: seq<string>, b: seq<string>)
    requires |names| == |a| == |b| && NamedValues(names, a) == NamedValues(names, b)
    ensures a == b
  {
    forall i | 0 <= i < |a| ensures a[i] == b[i] {
      assert NamedValues(names, a)[i] == NamedValues(names, b)[i];
    }
  }

  lemma {:induction false} FirstGapsGiveValues(k: RequestMapper, vals: seq<string>)
    requires Capturing(k.path) && |vals| == |Matched(k.path)|
    requires AllFirst([""] + vals, Unmatched(k.path))
    ensures var u := RequestMapper(Fill(Unmatched(k.path), vals), k.verb);
            && KeyMatches(k, u) && Scannable(k.path, u.path)
            && Captured(k.path, u.path) == NamedValues(Matched(k.path), vals)
  {
    var ps, gaps := Unmatched(k.path), [""] + vals;
    var url := Fill(ps, vals);
    assert Spells(gaps, ps, url);
    SpellsIsLeftmost(gaps, ps, url);
    ScansAgree(k, RequestMapper(url, k.verb));
    CapturedIs(k.path, url, OffsetsOf(gaps, ps));
    assert gaps[1..] == vals;
  }

  lemma {:induction false} ValuesGiveFirstGaps(k: RequestMapper, vals: seq<string>, g: seq<nat>)
    requires Capturing(k.path) && |vals| == |Matched(k.path)|
    requires var url := Fill(Unmatched(k.path), vals);
             && LeftmostAll(Unmatched(k.path), url, g) && Start(Unmatched(k.path), g, |g|) == |url|
             && Captured(k.path, url) == NamedValues(Matched(k.path), vals)
    ensures AllFirst([""] + vals, Unmatched(k.path))
  {
    var ps := Unmatched(k.path);
    var url := Fill(ps, vals);
    CapturedIs(k.path, url, g);
    LeftmostSpells(ps, url, g);
    var found := Gaps(ps, url, g);
    NamedValuesInjective(Matched(k.path), vals, found[1..]);
    WovenIsGapThenFill(found, ps);
    assert |found[0]| == 0;
    assert found == [""] + vals;
  }

  /** Fill, then match and extract: the filled URL is accepted and gives back
      exactly the values it was filled with, under the placeholder names in
      order, if and only if no literal occurs early in the value before it. */
  lemma {:induction false} FillThenExtractIff(k: RequestMapper, vals: seq<string>)
    requires Capturing(k.path) && |vals| == |Matched(k.path)|
    ensures var u := RequestMapper(Fill(Unmatched(k.path), vals), k.verb);
            KeyMatches(k, u) && Scannable(k.path, u.path)
            && Captured(k.path, u.path) == NamedValues(Matched(k.path), vals)
            <==> AllFirst([""] + vals, Unmatched(k.path))
  {
    var url := Fill(Unmatched(k.path), vals);
    var u := RequestMapper(url, k.verb);
    if AllFirst([""] + vals, Unmatched(k.path)) {
      FirstGapsGiveValues(k, vals);
    } else if KeyMatches(k, u) && Scannable(k.path, url)
              && Captured(k.path, url) == NamedValues(Matched(k.path), vals) {
      ScansAgree(k, u);
      var g: seq<nat> :| LeftmostAll(Unmatched(k.path), url, g) && Start(Unmatched(k.path), g, |g|) == |url|;
      ValuesGiveFirstGaps(k, vals, g);
      assert false;
    }
  }

  /** In particular for slash-shaped templates and slash-free values. */
  lemma {:induction false} FillThenExtract(k: RequestMapper, vals: seq<string>)
    requires SlashShaped(k.path) && |vals| == |Matched(k.path)| && SlashFree(vals)
    ensures var u := RequestMapper(Fill(Unmatched(k.path), vals), k.verb);
            && KeyMatches(k, u) && Scannable(k.path, u.path)
            && Captured(k.path, u.path) == NamedValues(Matched(k.path), vals)
  {
    SlashFreeGapsAreFirst(k.path, vals);
    FirstGapsGiveValues(k, vals);
  }

  function ValuesIn(params: seq<Parameter>): (r: seq<string>)
    ensures |r| == |params| && forall i :: 0 <= i < |r| ==> r[i] == params[i].value
  {
    seq(|params|, i requires 0 <= i < |params| => params[i].value)
  }

  /** Match and extract, then fill: one value per placeholder, and the filled
      template is the URL from the first occurrence of the first literal on. */
  lemma {:induction false} ExtractThenFill(k: RequestMapper, u: RequestMapper) returns (from: nat)
    requires Capturing(k.path) && KeyMatches(k, u)
    ensures Scannable(k.path, u.path)
    ensures FirstFrom(u.path, Unmatched(k.path)[0], 0, from)
    ensures var params, names := Captured(k.path, u.path), Matched(k.path);
            && |params| == |names|
            && (forall i :: 0 <= i < |names| ==> params[i].name == names[i])
            && Fill(Unmatched(k.path), ValuesIn(params)) == u.path[from..]
  {
    var ps, url := Unmatched(k.path), u.path;
    ScansAgree(k, u);
    var g: seq<nat> :| LeftmostAll(ps, url, g) && Start(ps, g, |g|) == |url|;
    CapturedIs(k.path, url, g);
    from := g[0];
    assert FirstAt(ps, url, g, 0);
    RefillFrom(ps, url, g);
    var vals := Gaps(ps, url, g)[1..];
    assert ValuesIn(NamedValues(Matched(k.path), vals)) == vals;
  }

  lemma {:induction false} RefillFrom(ps: seq<string>, url: string, g: seq<nat>)
    requires |ps| >= 1 && LeftmostAll(ps, url, g) && Start(ps, g, |g|) == |url|
    ensures Places(ps, url, g) && g[0] <= |url|
    ensures Fill(ps, Gaps(ps, url, g)[1..]) == url[g[0]..]
  {
    LeftmostSpells(ps, url, g);
    assert PlacedAt(ps, url, g, 0);
    var gaps := Gaps(ps, url, g);
    assert gaps[0] == Gap(ps, url, g, 0);
    SpelledBehindFirst(gaps, ps, url);
  }

  lemma {:induction false} SpelledBehindFirst(gaps: seq<string>, ps: seq<string>, url: string)
    requires |gaps| == |ps| >= 1 && url == Woven(gaps, ps, |ps|)
    ensures |gaps[0]| <= |url| && Fill(ps, gaps[1..]) == url[|gaps[0]|..]
  {
    WovenIsGapThenFill(gaps, ps);
    SuffixOf(gaps[0], Fill(ps, gaps[1..]));
  }

  lemma {:induction false} SuffixOf(a: string, b: string)
    ensures (a + b)[|a|..] == b
  {
  }
}
