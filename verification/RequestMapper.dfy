/** The registry key (include/request_mapper.hpp) and its asymmetric equality:
    the left key is a template, the right one a concrete request. */
module RequestMappers {
  import opened Text
  import opened RegexRange
  import opened Placement

  datatype Verb = Get | Put | Post | Delete | Other(code: nat)

  datatype RequestMapper = RequestMapper(path: string, verb: Verb)

  /** What `first == second` answers: a template of one piece stands for its
      own text; any other accepts the URLs that its pieces use up however
      they are placed. */
  ghost predicate KeyMatches(first: RequestMapper, second: RequestMapper) {
    && first.verb == second.verb
    && var pieces := Unmatched(first.path);
       if |pieces| == 1 then first.path == second.path else Tight(pieces, second.path)
  }

  /** request_mapper::operator==, with the URL cut down piece by piece. */
  method Equals(first: RequestMapper, second: RequestMapper) returns (equal: bool)
    ensures equal <==> KeyMatches(first, second)
  {
    if first.verb != second.verb { return false; }
    var splitCount := 0;
    var incomingUrl := second.path;
    var pieces := Unmatched(first.path);
    ghost var url, offs: seq<nat> := second.path, [];
    for n := 0 to |pieces|
      invariant splitCount == n == |offs|
      invariant Leftmost(pieces, url, offs) && Start(pieces, offs, n) <= |url|
      invariant incomingUrl == url[Start(pieces, offs, n)..]
    {
      var str := pieces[n];
      var index := Find(incomingUrl, str);
      if index.None? {
        NotFoundMeansNoMatch(first, second, offs, incomingUrl);
        return false;
      }
      ScanTurn(pieces, url, offs, incomingUrl, index.value);
      offs := offs + [Start(pieces, offs, n) + index.value];
      incomingUrl := incomingUrl[index.value + |str|..];
      splitCount := splitCount + 1;
    }
    ScanDecidesTight(pieces, url, offs);
    if splitCount == 1 {
      return first.path == second.path;
    }
    equal := incomingUrl == "";
  }

  /** The early `return false` of the loop. */
  lemma {:induction false} NotFoundMeansNoMatch(first: RequestMapper, second: RequestMapper,
                                                offs: seq<nat>, incoming: string)
    requires var ps := Unmatched(first.path);
             && Leftmost(ps, second.path, offs) && |offs| < |ps|
             && Start(ps, offs, |offs|) <= |second.path|
             && incoming == second.path[Start(ps, offs, |offs|)..]
             && Find(incoming, ps[|offs|]).None?
    ensures !KeyMatches(first, second)
  {
    var ps, url := Unmatched(first.path), second.path;
    var from := Start(ps, offs, |offs|);
    forall j: nat | from <= j ensures !OccursAt(url, ps[|offs|], j) {
      OccursInSuffix(url, ps[|offs|], from, j - from);
    }
    if |ps| == 1 {
      FirstPieceLeads(first.path);
      assert !OccursAt(url, ps[0], 0);
    } else {
      forall o: seq<nat> ensures !PlacesAll(ps, url, o) {
        StuckMeansNone(ps, url, offs, o);
      }
    }
  }

  /** The template begins with its first piece. */
  lemma {:induction false} FirstPieceLeads(t: string)
    ensures OccursAt(t, Unmatched(t)[0], 0)
  {
    RebuildsTemplate(t);
    UnmatchedAndLiterals(t);
    var gaps, lits := [""] + Braced(Matched(t)), Literals(t);
    FirstWoven(Braced(Matched(t)), lits);
    WovenIsPrefix(gaps, lits, 1, |lits|);
    PrefixOccurs(t, lits[0]);
  }

  lemma {:induction false} FirstWoven(vals: seq<string>, lits: seq<string>)
    requires |lits| >= 1
    ensures Woven([""] + vals, lits, 1) == lits[0]
  {
    var gaps := [""] + vals;
    assert Woven(gaps, lits, 1) == Woven(gaps, lits, 0) + gaps[0] + lits[0];
  }

  lemma {:induction false} PrefixOccurs(t: string, p: string)
    requires p <= t
    ensures OccursAt(t, p, 0)
  {
  }

  // ------------------------------------------------------ what it amounts to

  /** Matching with a template of one piece is equality of keys. */
  lemma {:induction false} SinglePieceIsEquality(k: RequestMapper, u: RequestMapper)
    requires |Unmatched(k.path)| == 1
    ensures KeyMatches(k, u) <==> k == u
  {
  }

  /** The language of a template of several pieces, in closed form: any text
      in front, then the literals with values between them, where no literal
      occurs early in the text before it. */
  lemma {:induction false} MatchedLanguage(k: RequestMapper, u: RequestMapper)
    requires |Unmatched(k.path)| > 1
    ensures KeyMatches(k, u) <==>
            k.verb == u.verb && exists gaps: seq<string> :: Spells(gaps, Unmatched(k.path), u.path)
  {
    AcceptedLanguage(Unmatched(k.path), u.path);
  }

  /** Greedy matching is weaker than pattern matching. A URL made by filling a
      template is accepted exactly if the last literal does not occur between
      the leftmost places of the others and its own place at the end. */
  lemma {:induction false} FilledAcceptedIff(k: RequestMapper, vals: seq<string>, g: seq<nat>)
    requires var ps := Unmatched(k.path);
             && |ps| > 1 && |vals| == |ps| - 1
             && Leftmost(ps, Fill(ps, vals), g) && |g| == |ps| - 1
    ensures var ps, url := Unmatched(k.path), Fill(Unmatched(k.path), vals);
            var last := ps[|ps| - 1];
            && Start(ps, g, |g|) + |last| <= |url|
            && (KeyMatches(k, RequestMapper(url, k.verb)) <==> FirstIn(url[Start(ps, g, |g|)..|url| - |last|], last))
  {
    var ps, gaps := Unmatched(k.path), [""] + vals;
    var url := Fill(ps, vals);
    WovenPlaces(gaps, ps, url);
    StartOfOffsets(gaps, ps, |ps|);
    LastPieceDecides(ps, url, OffsetsOf(gaps, ps), g);
  }

  /** So filling /a/{x}/b with x/b gives a URL that is not accepted. */
  lemma {:induction false} GreedyRejectsAFilling(verb: Verb)
    ensures var k, u := RequestMapper("/a/{x}/b", verb), RequestMapper("/a/x/b/b", verb);
            && Matched(k.path) == ["x"] && Fill(Unmatched(k.path), ["x/b"]) == u.path
            && !KeyMatches(k, u)
  {
    var ps := ["/a/", "/b"];
    TemplateAxB();
    FillTwo("/a/", "x/b", "/b");
    var url := "/a/x/b/b";
    assert url[0..3] == ps[0] && url[4..6] == ps[1];
    LooseFit(ps, url, [0, 4]);
  }

  lemma {:induction false} TemplateAB(name: string)
    requires PlainName(name)
    ensures var t := "/a/" + Brace(name) + "/b";
            Unmatched(t) == ["/a/", "/b"] && Matched(t) == [name] && SlashShaped(t)
  {
    FillTwo("/a/", Brace(name), "/b");
    assert PlainLiteral("/a/") && PlainLiteral("/b");
    assert Braced([name]) == [Brace(name)];
    RecoversRendering(["/a/", "/b"], [name]);
  }

  lemma {:induction false} TemplateAxB()
    ensures Unmatched("/a/{x}/b") == ["/a/", "/b"] && Matched("/a/{x}/b") == ["x"] && SlashShaped("/a/{x}/b")
  {
    assert PlainName("x");
    TemplateAB("x");
    assert "/a/{x}/b" == "/a/" + Brace("x") + "/b";
  }

  /** Two pieces that can be placed with something left over. */
  lemma {:induction false} LooseFit(ps: seq<string>, url: string, offs: seq<nat>)
    requires |ps| == |offs| == 2 && offs[0] + |ps[0]| <= offs[1] && offs[1] + |ps[1]| < |url|
    requires OccursAt(url, ps[0], offs[0]) && OccursAt(url, ps[1], offs[1])
    ensures !Tight(ps, url)
  {
    assert PlacedAt(ps, url, offs, 0) && PlacedAt(ps, url, offs, 1);
    assert PlacesAll(ps, url, offs);
  }

  // -------------------------------------------------------------- reflexivity

  /** Where a template with placeholders and a trailing literal places its
      own pieces in its own text. */
  lemma {:induction false} OwnPlacement(t: string) returns (o: seq<nat>)
    requires |Unmatched(t)| == |Matched(t)| + 1
    ensures PlacesAll(Unmatched(t), t, o)
    ensures Start(Unmatched(t), o, |Unmatched(t)|) == |t|
    ensures AllFirst([""] + Braced(Matched(t)), Unmatched(t)) ==> LeftmostAll(Unmatched(t), t, o)
  {
    RebuildsTemplate(t);
    UnmatchedAndLiterals(t);
    var gaps, ps := [""] + Braced(Matched(t)), Unmatched(t);
    WovenPlaces(gaps, ps, t);
    o := OffsetsOf(gaps, ps);
    StartOfOffsets(gaps, ps, |ps|);
  }

  /** A template that ends in a placeholder and has several pieces never
      matches its own text: the scan leaves at least that placeholder over. */
  lemma {:induction false} EndingInPlaceholderNotReflexive(k: RequestMapper)
    requires |Unmatched(k.path)| > 1 && |Unmatched(k.path)| == |Matched(k.path)|
    ensures !KeyMatches(k, k)
  {
    var t := k.path;
    RebuildsTemplate(t);
    UnmatchedAndLiterals(t);
    var ps, lits, gaps := Unmatched(t), Literals(t), [""] + Braced(Matched(t));
    var m := |ps|;
    assert Woven(gaps, lits, m + 1) == Woven(gaps, lits, m) + gaps[m] + lits[m];
    assert gaps[m] == Brace(Matched(t)[m - 1]);
    WovenExt(gaps, lits, gaps[..m], ps, m);
    assert Woven(gaps[..m], ps, m) <= t;
    WovenPlaces(gaps[..m], ps, t);
    StartOfOffsets(gaps[..m], ps, m);
    assert PlacesAll(ps, t, OffsetsOf(gaps[..m], ps));
  }

  /** Exactly when a template with a placeholder and a trailing literal
      matches its own text: scan the other literals leftmost; the trailing one
      must then not occur before its own place at the end. */
  lemma {:induction false} ReflexiveIff(k: RequestMapper, g: seq<nat>)
    requires var ps, t := Unmatched(k.path), k.path;
             && |ps| > 1 && |ps| == |Matched(t)| + 1
             && Leftmost(ps, t, g) && |g| == |ps| - 1
    ensures var ps, t := Unmatched(k.path), k.path;
            var last := ps[|ps| - 1];
            && Start(ps, g, |g|) + |last| <= |t|
            && (KeyMatches(k, k) <==> FirstIn(t[Start(ps, g, |g|)..|t| - |last|], last))
  {
    var o := OwnPlacement(k.path);
    LastPieceDecides(Unmatched(k.path), k.path, o, g);
  }

  /** The shape the router's users rely on: every literal after a placeholder
      begins with a slash, and the last one is not empty. */
  predicate SlashShaped(t: string) {
    var ps := Unmatched(t);
    && |ps| > 1 && |ps| == |Matched(t)| + 1
    && forall i :: 1 <= i < |ps| ==> ps[i] != "" && ps[i][0] == '/'
  }

  predicate SlashFree(vals: seq<string>) {
    forall v <- vals :: '/' !in v
  }

  lemma {:induction false} SlashFreeGapsAreFirst(t: string, vals: seq<string>)
    requires SlashShaped(t) && |vals| == |Matched(t)| && SlashFree(vals)
    ensures AllFirst([""] + vals, Unmatched(t))
  {
    var gaps, ps := [""] + vals, Unmatched(t);
    forall i: nat | i < |ps| ensures FirstIn(gaps[i], ps[i]) {
      if i > 0 {
        assert gaps[i] == vals[i - 1] && vals[i - 1] in vals;
        AbsentHeadIsFirst(gaps[i], ps[i]);
      }
    }
  }

  /** Such a template with slash-free names does match its own text. */
  lemma {:induction false} SlashShapedReflexive(k: RequestMapper)
    requires SlashShaped(k.path) && SlashFree(Matched(k.path))
    ensures KeyMatches(k, k)
  {
    var t := k.path;
    var names := Matched(t);
    assert SlashFree(Braced(names)) by {
      forall v | v in Braced(names) ensures '/' !in v {
        var i :| 0 <= i < |names| && v == Brace(names[i]);
        assert names[i] in names;
      }
    }
    SlashFreeGapsAreFirst(t, Braced(names));
    var o := OwnPlacement(t);
    ScanDecidesTight(Unmatched(t), t, o);
  }
}
