/** Placing the literal pieces of a template in a URL: arbitrary ordered
    placements, the leftmost one, and the gaps between the pieces. */
module Placement {
  import opened Text
  import opened RegexRange

  /** Where the search for the i-th piece begins: behind the previous piece. */
  function Start(ps: seq<string>, offs: seq<nat>, i: nat): nat
    requires i <= |offs| <= |ps|
  {
    if i == 0 then 0 else offs[i - 1] + |ps[i - 1]|
  }

  /** The i-th piece stands at its offset, not before the previous one ends. */
  ghost predicate PlacedAt(ps: seq<string>, url: string, offs: seq<nat>, i: nat)
    requires i < |offs| <= |ps|
  {
    Start(ps, offs, i) <= offs[i] && OccursAt(url, ps[i], offs[i])
  }

  /** The first |offs| pieces stand at these offsets of the URL, in order and
      without overlap. */
  ghost predicate Places(ps: seq<string>, url: string, offs: seq<nat>) {
    && |offs| <= |ps|
    && forall i: nat :: i < |offs| ==> PlacedAt(ps, url, offs, i)
  }

  ghost predicate PlacesAll(ps: seq<string>, url: string, offs: seq<nat>) {
    Places(ps, url, offs) && |offs| == |ps|
  }

  /** The i-th piece takes the first place still open to it. */
  ghost predicate FirstAt(ps: seq<string>, url: string, offs: seq<nat>, i: nat)
    requires i < |offs| <= |ps|
  {
    FirstFrom(url, ps[i], Start(ps, offs, i), offs[i])
  }

  /** A placement where every piece takes the first place still open to it. */
  ghost predicate Leftmost(ps: seq<string>, url: string, offs: seq<nat>) {
    && |offs| <= |ps|
    && forall i: nat :: i < |offs| ==> FirstAt(ps, url, offs, i)
  }

  ghost predicate LeftmostAll(ps: seq<string>, url: string, offs: seq<nat>) {
    Leftmost(ps, url, offs) && |offs| == |ps|
  }

  /** Some placement of all pieces exists and each one uses up the URL. */
  ghost predicate Tight(ps: seq<string>, url: string) {
    && (exists offs: seq<nat> :: PlacesAll(ps, url, offs))
    && forall offs: seq<nat> :: PlacesAll(ps, url, offs) ==> Start(ps, offs, |ps|) == |url|
  }

  // ------------------------------------------------------- exchange argument

  lemma {:induction false} LeftmostPlaces(ps: seq<string>, url: string, offs: seq<nat>)
    requires Leftmost(ps, url, offs)
    ensures Places(ps, url, offs)
    ensures Start(ps, offs, |offs|) <= |url|
  {
    forall i: nat | i < |offs| ensures PlacedAt(ps, url, offs, i) {
      assert FirstAt(ps, url, offs, i);
    }
    if |offs| > 0 { assert PlacedAt(ps, url, offs, |offs| - 1); }
  }

  /** The leftmost placement is pointwise least among all placements. */
  lemma {:induction false} LeftmostIsLeast(ps: seq<string>, url: string, g: seq<nat>, o: seq<nat>, i: nat)
    requires Leftmost(ps, url, g) && Places(ps, url, o)
    requires i < |g| && i < |o|
    ensures g[i] <= o[i]
  {
    if i > 0 { LeftmostIsLeast(ps, url, g, o, i - 1); }
    assert FirstAt(ps, url, g, i) && PlacedAt(ps, url, o, i);
  }

  lemma {:induction false} LeftmostEndsFirst(ps: seq<string>, url: string, g: seq<nat>, o: seq<nat>)
    requires LeftmostAll(ps, url, g) && PlacesAll(ps, url, o)
    ensures Start(ps, g, |ps|) <= Start(ps, o, |ps|) <= |url|
  {
    if |ps| > 0 {
      LeftmostIsLeast(ps, url, g, o, |ps| - 1);
      assert PlacedAt(ps, url, o, |ps| - 1);
    }
  }

  lemma {:induction false} LeftmostUnique(ps: seq<string>, url: string, g: seq<nat>, o: seq<nat>)
    requires LeftmostAll(ps, url, g) && LeftmostAll(ps, url, o)
    ensures g == o
  {
    LeftmostPlaces(ps, url, g);
    LeftmostPlaces(ps, url, o);
    forall i | 0 <= i < |ps| ensures g[i] == o[i] {
      LeftmostIsLeast(ps, url, g, o, i);
      LeftmostIsLeast(ps, url, o, g, i);
    }
  }

  /** If the greedy scan gets stuck, no placement exists at all. */
  lemma {:induction false} StuckMeansNone(ps: seq<string>, url: string, g: seq<nat>, o: seq<nat>)
    requires Leftmost(ps, url, g) && |g| < |ps|
    requires forall j: nat :: Start(ps, g, |g|) <= j ==> !OccursAt(url, ps[|g|], j)
    ensures !PlacesAll(ps, url, o)
  {
    var n := |g|;
    if PlacesAll(ps, url, o) {
      assert PlacedAt(ps, url, o, n);
      if n > 0 { LeftmostIsLeast(ps, url, g, o, n - 1); }
      assert false;
    }
  }

  lemma {:induction false} LeftmostSnoc(ps: seq<string>, url: string, g: seq<nat>, at: nat)
    requires Leftmost(ps, url, g) && |g| < |ps|
    requires FirstFrom(url, ps[|g|], Start(ps, g, |g|), at)
    ensures Leftmost(ps, url, g + [at])
  {
    var g' := g + [at];
    forall i: nat | i < |g'| ensures FirstAt(ps, url, g', i) {
      assert Start(ps, g', i) == Start(ps, g, i);
      if i < |g| { assert FirstAt(ps, url, g, i); }
    }
  }

  /** The greedy scan finds a placement whenever there is one. */
  lemma {:induction false} LeftmostExists(ps: seq<string>, url: string, o: seq<nat>, n: nat) returns (g: seq<nat>)
    requires PlacesAll(ps, url, o) && n <= |ps|
    ensures Leftmost(ps, url, g) && |g| == n
  {
    if n == 0 {
      g := [];
    } else {
      g := LeftmostExists(ps, url, o, n - 1);
      LeftmostPlaces(ps, url, g);
      var r := FindFrom(url, ps[n - 1], Start(ps, g, n - 1));
      if r.None? {
        StuckMeansNone(ps, url, g, o);
        assert false;
      } else {
        LeftmostSnoc(ps, url, g, r.value);
        g := g + [r.value];
      }
    }
  }

  /** The URL is matched tightly exactly when the leftmost placement uses it up. */
  lemma {:induction false} TightIffLeftmostEnds(ps: seq<string>, url: string)
    ensures Tight(ps, url) <==>
            exists g: seq<nat> :: LeftmostAll(ps, url, g) && Start(ps, g, |ps|) == |url|
  {
    if Tight(ps, url) {
      var o: seq<nat> :| PlacesAll(ps, url, o);
      var g := LeftmostExists(ps, url, o, |ps|);
      LeftmostPlaces(ps, url, g);
      assert PlacesAll(ps, url, g);
    }
    if g: seq<nat> :| LeftmostAll(ps, url, g) && Start(ps, g, |ps|) == |url| {
      LeftmostPlaces(ps, url, g);
      assert PlacesAll(ps, url, g);
      forall o: seq<nat> | PlacesAll(ps, url, o) ensures Start(ps, o, |ps|) == |url| {
        LeftmostEndsFirst(ps, url, g, o);
      }
    }
  }

  /** A completed leftmost scan decides tightness by where it ends. */
  lemma {:induction false} ScanDecidesTight(ps: seq<string>, url: string, g: seq<nat>)
    requires LeftmostAll(ps, url, g)
    ensures Tight(ps, url) <==> Start(ps, g, |ps|) == |url|
  {
    TightIffLeftmostEnds(ps, url);
    if Tight(ps, url) {
      var h: seq<nat> :| LeftmostAll(ps, url, h) && Start(ps, h, |ps|) == |url|;
      LeftmostUnique(ps, url, g, h);
    }
  }

  /** One turn of a scan that cuts the searched text off the URL. */
  lemma {:induction false} ScanTurn(ps: seq<string>, url: string, g: seq<nat>, rest: string, index: nat)
    requires Leftmost(ps, url, g) && |g| < |ps|
    requires Start(ps, g, |g|) <= |url| && rest == url[Start(ps, g, |g|)..]
    requires FirstFrom(rest, ps[|g|], 0, index)
    ensures var g' := g + [Start(ps, g, |g|) + index];
            && Leftmost(ps, url, g')
            && Start(ps, g', |g'|) <= |url|
            && rest[index + |ps[|g|]|..] == url[Start(ps, g', |g'|)..]
  {
    var from := Start(ps, g, |g|);
    FirstInSuffix(url, ps[|g|], from, index);
    LeftmostSnoc(ps, url, g, from + index);
  }

  /** The first place of p behind `from`, when p also closes the text. */
  lemma {:induction false} FirstAtEnd(t: string, p: string, from: nat, at: nat)
    requires from + |p| <= |t| && t[|t| - |p|..] == p
    requires FirstFrom(t, p, from, at)
    ensures at == |t| - |p| <==> FirstIn(t[from..|t| - |p|], p)
  {
    var own := |t| - |p|;
    assert t == t[..from] + t[from..own] + p + "";
    FirstIsLocal(t, t[..from], t[from..own], p, "");
    if FirstFrom(t, p, from, own) {
      assert OccursAt(t, p, at);
      assert at == own;
    }
  }

  /** When the pieces close the text, and all but the last have been scanned,
      tightness depends on early occurrences of the last piece alone. */
  lemma {:induction false} LastPieceDecides(ps: seq<string>, t: string, o: seq<nat>, g: seq<nat>)
    requires PlacesAll(ps, t, o) && |ps| > 1 && Start(ps, o, |ps|) == |t|
    requires Leftmost(ps, t, g) && |g| == |ps| - 1
    ensures var last := ps[|g|];
            && Start(ps, g, |g|) + |last| <= |t|
            && (Tight(ps, t) <==> FirstIn(t[Start(ps, g, |g|)..|t| - |last|], last))
  {
    var n, last := |g|, ps[|g|];
    var from := Start(ps, g, n);
    LeftmostIsLeast(ps, t, g, o, n - 1);
    assert PlacedAt(ps, t, o, n);
    assert o[n] == |t| - |last| && from <= o[n];
    var r := FindFrom(t, last, from);
    LeftmostSnoc(ps, t, g, r.value);
    ScanDecidesTight(ps, t, g + [r.value]);
    FirstAtEnd(t, last, from, r.value);
  }

  // --------------------------------------------------------------------- gaps

  /** The text in front of the i-th placed piece. */
  function Gap(ps: seq<string>, url: string, offs: seq<nat>, i: nat): string
    requires i < |offs| <= |ps| && Start(ps, offs, i) <= offs[i] <= |url|
  {
    url[Start(ps, offs, i)..offs[i]]
  }

  ghost function Gaps(ps: seq<string>, url: string, offs: seq<nat>): (gaps: seq<string>)
    requires Places(ps, url, offs)
    ensures |gaps| == |offs|
  {
    seq(|offs|, i requires 0 <= i < |offs| => assert PlacedAt(ps, url, offs, i); Gap(ps, url, offs, i))
  }

  /** Weaving the gaps of a placement with its pieces gives the URL back, up
      to where the pieces end. */
  lemma {:induction false} GapsRefill(ps: seq<string>, url: string, offs: seq<nat>, n: nat)
    requires Places(ps, url, offs) && n <= |offs|
    ensures Start(ps, offs, n) <= |url|
    ensures Woven(Gaps(ps, url, offs), ps, n) == url[..Start(ps, offs, n)]
  {
    if n > 0 {
      GapsRefill(ps, url, offs, n - 1);
      assert PlacedAt(ps, url, offs, n - 1);
      var a, b, c := Start(ps, offs, n - 1), offs[n - 1], Start(ps, offs, n);
      assert url[..a] + url[a..b] + url[b..c] == url[..c];
    }
  }

  /** The offsets that a list of gaps puts the pieces at. */
  function OffsetsOf(gaps: seq<string>, ps: seq<string>): (offs: seq<nat>)
    requires |gaps| == |ps|
    ensures |offs| == |ps|
    ensures forall i: nat :: i < |offs| ==> offs[i] == |Woven(gaps, ps, i)| + |gaps[i]|
  {
    seq(|ps|, i requires 0 <= i < |ps| => |Woven(gaps, ps, i)| + |gaps[i]|)
  }

  lemma {:induction false} StartOfOffsets(gaps: seq<string>, ps: seq<string>, i: nat)
    requires |gaps| == |ps| && i <= |ps|
    ensures Start(ps, OffsetsOf(gaps, ps), i) == |Woven(gaps, ps, i)|
  {}

  ghost predicate AllFirst(gaps: seq<string>, ps: seq<string>)
    requires |gaps| == |ps|
  {
    forall i: nat :: i < |ps| ==> FirstIn(gaps[i], ps[i])
  }

  lemma {:induction false} OneGap(gaps: seq<string>, ps: seq<string>, url: string, i: nat)
    requires |gaps| == |ps| && i < |ps|
    requires Woven(gaps, ps, |ps|) <= url
    ensures PlacedAt(ps, url, OffsetsOf(gaps, ps), i)
    ensures Gap(ps, url, OffsetsOf(gaps, ps), i) == gaps[i]
    ensures FirstAt(ps, url, OffsetsOf(gaps, ps), i) <==> FirstIn(gaps[i], ps[i])
  {
    var rest := SplitAtGap(gaps, ps, url, i);
    FirstIsLocal(url, Woven(gaps, ps, i), gaps[i], ps[i], rest);
    StartOfOffsets(gaps, ps, i);
    assert OffsetsOf(gaps, ps)[i] == |Woven(gaps, ps, i)| + |gaps[i]|;
  }

  /** A woven URL is a placement; its gaps are the ones woven in; and it is
      leftmost exactly when no piece occurs early in its own gap. */
  lemma {:induction false} WovenPlaces(gaps: seq<string>, ps: seq<string>, url: string)
    requires |gaps| == |ps| && Woven(gaps, ps, |ps|) <= url
    ensures PlacesAll(ps, url, OffsetsOf(gaps, ps))
    ensures Gaps(ps, url, OffsetsOf(gaps, ps)) == gaps
    ensures LeftmostAll(ps, url, OffsetsOf(gaps, ps)) <==> AllFirst(gaps, ps)
  {
    var offs := OffsetsOf(gaps, ps);
    forall i: nat | i < |ps|
      ensures PlacedAt(ps, url, offs, i) && Gap(ps, url, offs, i) == gaps[i]
      ensures FirstAt(ps, url, offs, i) <==> FirstIn(gaps[i], ps[i])
    {
      OneGap(gaps, ps, url, i);
    }
    if AllFirst(gaps, ps) {
      forall i: nat | i < |ps| ensures FirstAt(ps, url, offs, i) {
        assert FirstIn(gaps[i], ps[i]);
      }
    }
    assert Gaps(ps, url, offs) == gaps;
  }

  /** url is the weaving of the gaps with all pieces, nothing left over, and
      no piece occurs early. */
  ghost predicate Spells(gaps: seq<string>, ps: seq<string>, url: string) {
    |gaps| == |ps| && AllFirst(gaps, ps) && url == Woven(gaps, ps, |ps|)
  }

  lemma {:induction false} SpellsIsLeftmost(gaps: seq<string>, ps: seq<string>, url: string)
    requires Spells(gaps, ps, url)
    ensures LeftmostAll(ps, url, OffsetsOf(gaps, ps))
    ensures Places(ps, url, OffsetsOf(gaps, ps))
    ensures Gaps(ps, url, OffsetsOf(gaps, ps)) == gaps
    ensures Start(ps, OffsetsOf(gaps, ps), |ps|) == |url|
  {
    WovenPlaces(gaps, ps, url);
    StartOfOffsets(gaps, ps, |ps|);
  }

  lemma {:induction false} LeftmostSpells(ps: seq<string>, url: string, g: seq<nat>)
    requires LeftmostAll(ps, url, g) && Start(ps, g, |ps|) == |url|
    ensures Places(ps, url, g)
    ensures Spells(Gaps(ps, url, g), ps, url)
  {
    LeftmostPlaces(ps, url, g);
    var gaps := Gaps(ps, url, g);
    GapsRefill(ps, url, g, |ps|);
    assert url[..|url|] == url;
    WovenPlaces(gaps, ps, url);
    forall i | 0 <= i < |ps| ensures OffsetsOf(gaps, ps)[i] == g[i] {
      GapsRefill(ps, url, g, i);
      assert PlacedAt(ps, url, g, i);
    }
    assert OffsetsOf(gaps, ps) == g;
  }

  /** The exact language of a list of pieces: the matcher's "leftmost scan
      leaves nothing over" accepts a URL if and only if the URL is spelled
      by some gaps in which no piece occurs early. */
  lemma {:induction false} AcceptedLanguage(ps: seq<string>, url: string)
    ensures Tight(ps, url) <==> exists gaps: seq<string> :: Spells(gaps, ps, url)
  {
    TightIffLeftmostEnds(ps, url);
    if g: seq<nat> :| LeftmostAll(ps, url, g) && Start(ps, g, |ps|) == |url| {
      LeftmostSpells(ps, url, g);
    }
    if gaps: seq<string> :| Spells(gaps, ps, url) {
      SpellsIsLeftmost(gaps, ps, url);
    }
  }

  /** The spelling is unique, so captured values are well defined. */
  lemma {:induction false} SpellingUnique(ps: seq<string>, url: string, gaps: seq<string>, gaps': seq<string>)
    requires Spells(gaps, ps, url) && Spells(gaps', ps, url)
    ensures gaps == gaps'
  {
    SpellsIsLeftmost(gaps, ps, url);
    SpellsIsLeftmost(gaps', ps, url);
    LeftmostUnique(ps, url, OffsetsOf(gaps, ps), OffsetsOf(gaps', ps));
  }
}
