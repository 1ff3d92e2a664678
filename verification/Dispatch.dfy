/** End-to-end dispatch: what the router answers after any sequence of
    registrations, stated over the targets that clients write. */
module Dispatching {
  import opened Text
  import opened Utilities
  import opened RegexRange
  import opened Placement
  import opened RequestMappers
  import opened HttpTargetParser
  import opened TemplateRoundTrip
  import opened FlatMaps
  import opened Registry
  import opened HttpServer

  // ----------------------------------------------------- filled templates

  lemma {:induction false} LastSlashOfSuffix(a: string, b: string)
    requires '/' in b
    ensures LastIndexOf(b, '/').Some?
    ensures LastIndexOf(a + b, '/') == Some(|a| + LastIndexOf(b, '/').value)
  {
    var s, i := a + b, LastIndexOf(b, '/').value;
    assert s[|a| + i] == '/';
    assert forall k :: |a| + i < k < |s| ==> s[k] == b[k - |a|];
  }

  /** A URL filled into a template ends in the template's last literal, so
      that literal decides whether it parses back to itself. */
  lemma {:induction false} FilledIsPlain(lits: seq<string>, vals: seq<string>)
    requires |lits| == |vals| + 1 && PlainPath(lits[|vals|])
    ensures PlainPath(Fill(lits, vals))
  {
    var n, last := |vals|, lits[|vals|];
    var gaps := [""] + vals;
    var before := Woven(gaps, lits, n) + gaps[n];
    var url := Fill(lits, vals);
    assert url == before + last;
    LastSlashOfSuffix(before, last);
    var i := LastIndexOf(last, '/').value;
    assert url[|before| + i..] == last[i..];
  }

  /** No key before the i-th one takes the request. */
  ghost predicate NoneBefore<H>(t: HandlerTable<H>, i: nat, u: RequestMapper)
    requires i <= |t|
  {
    forall j :: 0 <= j < i ==> !KeyMatches(t[j].key, u)
  }

  /** The slot of a table that a request goes to, told by the keys before it. */
  lemma {:induction false} GoesToSlot<H>(t: HandlerTable<H>, i: nat, u: RequestMapper)
    requires i < |t| && KeyMatches(t[i].key, u) && NoneBefore(t, i, u)
    ensures Slot(KeyMatches, t, u) == i
  {
    SlotIs(KeyMatches, t, u, i);
  }

  /** Resolution of a request whose slot is known. */
  lemma {:induction false} ResolveHit<H>(t: HandlerTable<H>, i: nat, target: string, verb: Verb)
    requires NoNull(t) && WellFormedQuery(target) && i < |t|
    requires Slot(KeyMatches, t, RequestKey(target, verb)) == i
    ensures var path := NameOf(target);
            && (|Unmatched(t[i].key.path)| == 1 || Scannable(t[i].key.path, path))
            && Resolve(t, target, verb) ==
               Resolved(t[i].value.value, path, PairsOf(QueryPieces(target)) + PathParams(t[i].key.path, path))
  {
    var u := RequestKey(target, verb);
    assert KeyMatches(t[i].key, u);
    if |Unmatched(t[i].key.path)| > 1 { ScansAgree(t[i].key, u); }
  }

  /** Every stored template is served: fill it with values in which no literal
      occurs early, add a query, and unless an earlier key claims that URL the
      template's own handler is the one resolved, with the query pairs followed
      by the placeholder values in order. */
  lemma {:induction false} FilledUrlResolves<H>(t: HandlerTable<H>, i: nat, vals: seq<string>, query: string)
    requires NoNull(t) && i < |t| && Capturing(t[i].key.path)
    requires |vals| == |Matched(t[i].key.path)| && AllFirst([""] + vals, Unmatched(t[i].key.path))
    requires var url := Fill(Unmatched(t[i].key.path), vals);
             PlainPath(url) && NoneBefore(t, i, RequestMapper(url, t[i].key.verb))
    requires '/' !in query
    requires forall p <- Split(query, '&') :: '=' in p
    ensures var k := t[i].key;
            var url := Fill(Unmatched(k.path), vals);
            var values := NamedValues(Matched(k.path), vals);
            var h := t[i].value.value;
            && WellFormedQuery(url) && WellFormedQuery(url + "?" + query)
            && Resolve(t, url, k.verb) == Resolved(h, url, values)
            && Resolve(t, url + "?" + query, k.verb) == Resolved(h, url, PairsOf(Split(query, '&')) + values)
  {
    var url := Fill(Unmatched(t[i].key.path), vals);
    PlainPathParses(url);
    FilledNameResolves(t, i, vals, url);
    NoPairs(NamedValues(Matched(t[i].key.path), vals));
    TargetSplits(url, query);
    FilledNameResolves(t, i, vals, url + "?" + query);
  }

  lemma {:induction false} NoPairs(values: seq<Parameter>)
    ensures PairsOf([]) + values == values
  {
  }

  /** The same for any target whose name part is the filled URL. */
  lemma {:induction false} FilledNameResolves<H>(t: HandlerTable<H>, i: nat, vals: seq<string>, target: string)
    requires NoNull(t) && i < |t| && Capturing(t[i].key.path)
    requires |vals| == |Matched(t[i].key.path)| && AllFirst([""] + vals, Unmatched(t[i].key.path))
    requires WellFormedQuery(target) && NameOf(target) == Fill(Unmatched(t[i].key.path), vals)
    requires NoneBefore(t, i, RequestKey(target, t[i].key.verb))
    ensures Resolve(t, target, t[i].key.verb) ==
            Resolved(t[i].value.value, NameOf(target),
                     PairsOf(QueryPieces(target)) + NamedValues(Matched(t[i].key.path), vals))
  {
    var k := t[i].key;
    FirstGapsGiveValues(k, vals);
    GoesToSlot(t, i, RequestMapper(NameOf(target), k.verb));
    ResolveHit(t, i, target, k.verb);
  }

  /** What EndToEnd asks of a slot and the values to fill its template with:
      literals after placeholders begin with a slash, values have none, the
      last literal has no `?` behind its last slash, and no earlier key claims
      the filled URL. */
  ghost predicate Fillable<H>(t: HandlerTable<H>, i: nat, vals: seq<string>) {
    && i < |t|
    && var key := t[i].key;
       var ps := Unmatched(key.path);
       && SlashShaped(key.path) && '?' !in ps[|ps| - 1][LastIndexOfSlash(ps[|ps| - 1])..]
       && |vals| == |Matched(key.path)| && SlashFree(vals)
       && NoneBefore(t, i, RequestMapper(Fill(ps, vals), key.verb))
  }

  /** The same for the routes people write and a query that is a printed list
      of pairs: whatever the body of the request, it is given to the handler
      registered last for the slot, whose function is called exactly if it
      takes that kind of body. */
  lemma {:induction false} EndToEnd<H>(regs: seq<Route<H>>, i: nat, vals: seq<string>, pairs: seq<Parameter>,
                                       body: BodyKind)
    returns (last: nat)
    requires Fillable(TableOf(regs), i, vals)
    requires Without(pairs, '/') && Without(pairs, '&') && Without(pairs, '=')
    ensures var key := TableOf(regs)[i].key;
            var url := Fill(Unmatched(key.path), vals);
            var req := Request(PrintTarget(url, pairs), key.verb, body);
            && WellFormedQuery(req.target)
            && last < |regs| && Written(KeyMatches, regs, last) == i
            && (forall w: nat :: last < w < |regs| ==> Written(KeyMatches, regs, w) != i)
            && Dispatch(TableOf(regs), req) ==
               if regs[last].handler.body == None || regs[last].handler.body == Some(body)
               then Handled(regs[last].handler.func, url, pairs + NamedValues(Matched(key.path), vals))
               else BodyMismatch
  {
    var t := TableOf(regs);
    var key := t[i].key;
    var ps := Unmatched(key.path);
    SlashFreeGapsAreFirst(key.path, vals);
    assert ps[|ps| - 1][0] == '/';
    FilledIsPlain(ps, vals);
    var url := Fill(ps, vals);
    PairsReadBack(url, pairs);
    FilledUrlResolves(t, i, vals, Join(Printed(pairs), '&'));
    var first;
    first, last := SlotOrigin(KeyMatches, regs, |regs|, i);
  }

  /** The offset of the last slash, 0 if there is none. */
  function LastIndexOfSlash(s: string): (i: nat)
    ensures i <= |s|
  {
    var r := LastIndexOf(s, '/');
    if r.Some? then r.value else 0
  }

  // -------------------------------------------------------------- all runs

  /** A request is only ever resolved to a handler that was registered for its
      own verb, although PUT and POST share a table; and a function is called
      only if it was registered for any body or for the request's kind. */
  lemma {:induction false} AnsweredByOwnVerb<H>(regs: seq<Route<H>>, req: Request) returns (last: nat)
    requires WellFormedQuery(req.target) && !Dispatch(TableOf(regs), req).NotFound?
    ensures last < |regs| && regs[last].key.verb == req.verb
    ensures Resolve(TableOf(regs), req.target, req.verb).Resolved?
    ensures Resolve(TableOf(regs), req.target, req.verb).handler == regs[last].handler
    ensures Dispatch(TableOf(regs), req).Handled? <==>
            regs[last].handler.body == None || regs[last].handler.body == Some(req.body)
    ensures Dispatch(TableOf(regs), req).Handled? ==> Dispatch(TableOf(regs), req).func == regs[last].handler.func
  {
    var u := RequestKey(req.target, req.verb);
    var s := Slot(KeyMatches, TableOf(regs), u);
    ResolveHit(TableOf(regs), s, req.target, req.verb);
    last := LatestHandlerAnswers(KeyMatches, regs, |regs|, u);
    WrittenKey(KeyMatches, regs, last, |regs|);
    MatchKeepsVerb(TableOf(regs)[s].key, u);
    MatchKeepsVerb(TableOf(regs)[s].key, regs[last].key);
  }

  /** The values that a matching key gives its names from the request's path. */
  ghost function PathValues(k: RequestMapper, u: RequestMapper): seq<Parameter>
    requires KeyMatches(k, u)
  {
    assert |Unmatched(k.path)| > 1 ==> Scannable(k.path, u.path) by {
      if |Unmatched(k.path)| > 1 { ScansAgree(k, u); }
    }
    PathParams(k.path, u.path)
  }

  /** The request is answered as this registration asks: its template matches,
      its handler is the one resolved, with values under its own names. */
  ghost predicate AnsweredAs<H>(t: HandlerTable<H>, target: string, verb: Verb, r: Route<H>)
    requires NoNull(t) && WellFormedQuery(target)
  {
    var u := RequestKey(target, verb);
    && KeyMatches(r.key, u)
    && Resolve(t, target, verb) == Resolved(r.handler, u.path, PairsOf(QueryPieces(target)) + PathValues(r.key, u))
  }

  lemma {:induction false} AnsweredAsStored<H>(t: HandlerTable<H>, i: nat, target: string, verb: Verb, r: Route<H>)
    requires NoNull(t) && WellFormedQuery(target) && i < |t| && t[i] == Entry(r.key, Some(r.handler))
    requires Slot(KeyMatches, t, RequestKey(target, verb)) == i
    ensures AnsweredAs(t, target, verb, r)
  {
    ResolveHit(t, i, target, verb);
  }

  /** With keys apart every resolved request is answered as the latest
      registration for its slot asks. */
  lemma {:induction false} AnsweredByOwnKey<H>(regs: seq<Route<H>>, target: string, verb: Verb) returns (last: nat)
    requires KeysApart(KeyMatches, regs)
    requires WellFormedQuery(target) && Resolve(TableOf(regs), target, verb).Resolved?
    ensures last < |regs| && AnsweredAs(TableOf(regs), target, verb, regs[last])
    ensures Written(KeyMatches, regs, last) == Slot(KeyMatches, TableOf(regs), RequestKey(target, verb))
    ensures forall w: nat :: last < w < |regs| ==> Written(KeyMatches, regs, w) != Written(KeyMatches, regs, last)
  {
    var s := Slot(KeyMatches, TableOf(regs), RequestKey(target, verb));
    last := OwnKeyStored(KeyMatches, regs, s);
    AnsweredAsStored(TableOf(regs), s, target, verb, regs[last]);
  }

  /** Two routes, the first of which matches the path of the second: the table
      keeps the first key and the second handler. */
  lemma {:induction false} TakenOver<H>(r0: Route<H>, r1: Route<H>)
    ensures TableOf([r0, r1]) ==
            if KeyMatches(r0.key, r1.key) then [Entry(r0.key, Some(r1.handler))]
            else [Entry(r0.key, Some(r0.handler)), Entry(r1.key, Some(r1.handler))]
  {
    RunOfTwo(KeyMatches, r0, r1);
  }

  /** So the second handler gets every request that the first template matches,
      with the values under the first template's names, whether or not its own
      path matches it. */
  lemma {:induction false} TakenOverAnswers<H>(r0: Route<H>, r1: Route<H>, target: string, verb: Verb)
    requires KeyMatches(r0.key, r1.key)
    requires WellFormedQuery(target) && KeyMatches(r0.key, RequestKey(target, verb))
    ensures AnsweredAs(TableOf([r0, r1]), target, verb, Registration(r0.key, r1.handler))
  {
    TakenOver(r0, r1);
    GoesToSlot(TableOf([r0, r1]), 0, RequestKey(target, verb));
    AnsweredAsStored(TableOf([r0, r1]), 0, target, verb, Registration(r0.key, r1.handler));
  }

  lemma {:induction false} TakenOverPlain<H>(r0: Route<H>, r1: Route<H>, u: RequestMapper)
    requires KeyMatches(r0.key, r1.key) && KeyMatches(r0.key, u)
    requires WellFormedQuery(u.path) && NameOf(u.path) == u.path && QueryPieces(u.path) == []
    ensures Resolve(TableOf([r0, r1]), u.path, u.verb) == Resolved(r1.handler, u.path, PathValues(r0.key, u))
  {
    TakenOverAnswers(r0, r1, u.path, u.verb);
    NoPairs(PathValues(r0.key, u));
  }

  function PathAB(v: string): string { "/a/" + v + "/b" }

  /** A request for /a/w/b goes to whatever was registered second for a path
      /a/v/b: with v the text 1 that is a path which /a/2/b does not match, with
      v a placeholder {y} the value still goes by the name x. */
  lemma {:induction false} SecondTakesOver<H>(h: Stored<H>, h': Stored<H>, verb: Verb, v: string, w: string)
    requires '/' !in v && '/' !in w
    ensures WellFormedQuery(PathAB(w))
    ensures var r0 := Registration(RequestMapper(PathAB("{x}"), verb), h);
            var r1 := Registration(RequestMapper(PathAB(v), verb), h');
            Resolve(TableOf([r0, r1]), PathAB(w), verb) == Resolved(h', PathAB(w), [Parameter("x", w)])
    ensures '{' !in v && w != v ==> !KeyMatches(RequestMapper(PathAB(v), verb), RequestMapper(PathAB(w), verb))
    ensures v == "{y}" ==> Matched(PathAB(v)) == ["y"]
  {
    var k := RequestMapper(PathAB("{x}"), verb);
    FilledAB(k, v);
    FilledAB(k, w);
    ParsedAB(w);
    var r1 := Registration(RequestMapper(PathAB(v), verb), h');
    TakenOverPlain(Registration(k, h), r1, RequestMapper(PathAB(w), verb));
    if '{' !in v && w != v { PathWithoutBraces(v, w, verb); }
    if v == "{y}" { NamedY(); }
  }

  lemma {:induction false} NamedY()
    ensures Matched(PathAB("{y}")) == ["y"]
  {
    assert PlainName("y") && Brace("y") == "{y}";
    TemplateAB("y");
  }

  lemma {:induction false} FilledAB(k: RequestMapper, v: string)
    requires k.path == PathAB("{x}") && '/' !in v
    ensures var u := RequestMapper(PathAB(v), k.verb);
            KeyMatches(k, u) && PathValues(k, u) == [Parameter("x", v)]
  {
    TemplateAxB();
    assert k.path == "/a/{x}/b";
    FillTwo("/a/", v, "/b");
    FillThenExtract(k, [v]);
    assert NamedValues(["x"], [v]) == [Parameter("x", v)];
  }

  lemma {:induction false} ParsedAB(v: string)
    ensures var path := PathAB(v);
            WellFormedQuery(path) && NameOf(path) == path && QueryPieces(path) == []
  {
    FillTwo("/a/", v, "/b");
    assert LastIndexOf("/b", '/') == Some(0);
    FilledIsPlain(["/a/", "/b"], [v]);
    PlainPathParses(PathAB(v));
  }

  lemma {:induction false} PathWithoutBraces(v: string, w: string, verb: Verb)
    requires '{' !in v && v != w
    ensures !KeyMatches(RequestMapper(PathAB(v), verb), RequestMapper(PathAB(w), verb))
  {
    var path, other := PathAB(v), PathAB(w);
    assert path[3..|path| - 2] == v && other[3..|other| - 2] == w;
    FillOne(path);
    assert Braced([]) == [] && PlainLiteral(path);
    RecoversRendering([path], []);
    SinglePieceIsEquality(RequestMapper(path, verb), RequestMapper(other, verb));
  }

  /** The keys that requests can have. */
  predicate Parsed(u: RequestMapper) { u.path == "" || PlainPath(u.path) }

  lemma {:induction false} KeysAreParsed(target: string, verb: Verb)
    ensures Parsed(RequestKey(target, verb))
  {
    ParseThenPrint(target);
  }

  lemma {:induction false} ParsedAreKeys(u: RequestMapper)
    requires Parsed(u)
    ensures WellFormedQuery(u.path) && RequestKey(u.path, u.verb) == u && QueryPieces(u.path) == []
  {
    if u.path != "" { PlainPathParses(u.path); }
  }

  /** Two keys that both match a request and take the same values from it. */
  ghost predicate SameAt(k0: RequestMapper, k1: RequestMapper, u: RequestMapper)
    requires KeyMatches(k0, u)
  {
    KeyMatches(k1, u) && PathValues(k1, u) == PathValues(k0, u)
  }

  /** A request that two routes resolve is answered as one of them asks. */
  ghost predicate AsAsked<H>(r0: Route<H>, r1: Route<H>, target: string, verb: Verb)
    requires WellFormedQuery(target)
  {
    var t := TableOf([r0, r1]);
    Resolve(t, target, verb).Resolved? ==> AnsweredAs(t, target, verb, r0) || AnsweredAs(t, target, verb, r1)
  }

  /** The condition for one request key. */
  ghost predicate AskedAt<H>(r0: Route<H>, r1: Route<H>, u: RequestMapper) {
    KeyMatches(r0.key, r1.key) && r0.handler != r1.handler && KeyMatches(r0.key, u) ==> SameAt(r0.key, r1.key, u)
  }

  /** Two routes answer every request as asked exactly if the first does not
      match the path of the second, or they have one handler, or the second
      takes the same values as the first from all that the first matches. */
  lemma {:induction false} TwoRoutesIff<H>(r0: Route<H>, r1: Route<H>)
    ensures (forall target, verb :: WellFormedQuery(target) ==> AsAsked(r0, r1, target, verb)) <==>
            || !KeyMatches(r0.key, r1.key)
            || r0.handler == r1.handler
            || forall u :: Parsed(u) && KeyMatches(r0.key, u) ==> SameAt(r0.key, r1.key, u)
  {
    forall target, verb | WellFormedQuery(target)
      ensures Parsed(RequestKey(target, verb))
      ensures AsAsked(r0, r1, target, verb) <==> AskedAt(r0, r1, RequestKey(target, verb))
    {
      AsAskedIff(r0, r1, target, verb);
      KeysAreParsed(target, verb);
    }
    forall u | Parsed(u) ensures WellFormedQuery(u.path) && RequestKey(u.path, u.verb) == u {
      ParsedAreKeys(u);
    }
    if forall target, verb :: WellFormedQuery(target) ==> AsAsked(r0, r1, target, verb) {
      forall u | Parsed(u) ensures AskedAt(r0, r1, u) {
        assert AsAsked(r0, r1, u.path, u.verb);
      }
    }
  }

  lemma {:induction false} AsAskedIff<H>(r0: Route<H>, r1: Route<H>, target: string, verb: Verb)
    requires WellFormedQuery(target)
    ensures AsAsked(r0, r1, target, verb) <==> AskedAt(r0, r1, RequestKey(target, verb))
  {
    var t, u := TableOf([r0, r1]), RequestKey(target, verb);
    TakenOver(r0, r1);
    if Slot(KeyMatches, t, u) == |t| {
    } else if KeyMatches(r0.key, r1.key) {
      TakenOverAnswers(r0, r1, target, verb);
      if KeyMatches(r1.key, u) {
        SamePrefix(PairsOf(QueryPieces(target)), PathValues(r1.key, u), PathValues(r0.key, u));
      }
    } else {
      var i := Slot(KeyMatches, t, u);
      AnsweredAsStored(t, i, target, verb, if i == 0 then r0 else r1);
    }
  }

  lemma {:induction false} SamePrefix<T>(p: seq<T>, a: seq<T>, b: seq<T>)
    ensures p + a == p + b <==> a == b
  {
    assert (p + a)[|p|..] == a && (p + b)[|p|..] == b;
  }

  lemma {:induction false} ValuesTellNames(k: RequestMapper, u: RequestMapper, names: seq<string>, vals: seq<string>)
    requires KeyMatches(k, u) && names != [] && |names| == |vals|
    requires PathValues(k, u) == NamedValues(names, vals)
    ensures Matched(k.path) == names
  {
    ScansAgree(k, u);
    var offs: seq<nat> :| LeftmostAll(Unmatched(k.path), u.path, offs);
    CapturedIs(k.path, u.path, offs);
    var params := PathValues(k, u);
    assert params == NamedValues(Matched(k.path), Gaps(Unmatched(k.path), u.path, offs)[1..]);
    forall i | 0 <= i < |names| ensures Matched(k.path)[i] == names[i] {
      assert params[i].name == names[i];
    }
  }

  /** Requests on one slash-shaped template that go astray: all two such routes
      need is different handlers and different names, so any path without
      placeholders that the template matches will do as the second. */
  lemma {:induction false} DifferentNamesGoAstray<H>(r0: Route<H>, r1: Route<H>) returns (target: string)
    requires var ps := Unmatched(r0.key.path);
             SlashShaped(r0.key.path) && PlainPath(ps[|ps| - 1])
    requires KeyMatches(r0.key, r1.key) && r0.handler != r1.handler
    requires Matched(r0.key.path) != Matched(r1.key.path)
    ensures WellFormedQuery(target) && !AsAsked(r0, r1, target, r0.key.verb)
  {
    var k, vals := r0.key, seq(|Matched(r0.key.path)|, i => "");
    target := Fill(Unmatched(k.path), vals);
    var u := RequestMapper(target, k.verb);
    FillThenExtract(k, vals);
    FilledIsPlain(Unmatched(k.path), vals);
    PlainPathParses(target);
    AsAskedIff(r0, r1, target, k.verb);
    assert PathValues(k, u) == NamedValues(Matched(k.path), vals);
    if KeyMatches(r1.key, u) && PathValues(r1.key, u) == PathValues(k, u) {
      ValuesTellNames(r1.key, u, Matched(k.path), vals);
      assert false;
    }
  }

  lemma {:induction false} MatchKeepsVerb(k: RequestMapper, u: RequestMapper)
    ensures KeyMatches(k, u) ==> k.verb == u.verb
  {
  }

  /** Once a request is resolved, later registrations keep it resolved, with
      the same parameters; only the handler may be replaced. */
  lemma {:induction false} AnswersPersist<H>(regs: seq<Route<H>>, more: seq<Route<H>>, target: string, verb: Verb)
    requires WellFormedQuery(target) && Resolve(TableOf(regs), target, verb).Resolved?
    ensures var before, after := Resolve(TableOf(regs), target, verb), Resolve(TableOf(regs + more), target, verb);
            after.Resolved? && after.name == before.name && after.params == before.params
  {
    var all, u := regs + more, RequestKey(target, verb);
    RunExtends(KeyMatches, regs, more, |regs|);
    ResolutionIsStable(KeyMatches, all, |regs|, |all|, u);
    KeysNeverMove(KeyMatches, all, |regs|, |all|);
  }

  /** Every registered path tokenises to one piece. */
  ghost predicate PlainRoutes<H>(regs: seq<Route<H>>) {
    forall i :: 0 <= i < |regs| ==> |Unmatched(regs[i].key.path)| == 1
  }

  lemma {:induction false} PlainRoutesAreEquality<H>(regs: seq<Route<H>>, u: RequestMapper)
    requires PlainRoutes(regs)
    ensures EqualityAt(KeyMatches, regs, u)
  {
    forall i | 0 <= i < |regs| ensures KeyMatches(regs[i].key, u) <==> regs[i].key == u {
      SinglePieceIsEquality(regs[i].key, u);
    }
  }

  /** A router without placeholders is an ordinary map from (path, verb) to
      handler, last write wins; not found exactly off its domain. */
  lemma {:induction false} PlainRouterIsMap<H>(regs: seq<Route<H>>, req: Request)
    requires PlainRoutes(regs) && WellFormedQuery(req.target)
    ensures var u, routes := RequestKey(req.target, req.verb), RunMap(regs, |regs|);
            Dispatch(TableOf(regs), req) ==
            if u !in routes then NotFound(u.path)
            else if routes[u].body == None || routes[u].body == Some(req.body)
            then Handled(routes[u].func, u.path, PairsOf(QueryPieces(req.target)))
            else BodyMismatch
  {
    var u := RequestKey(req.target, req.verb);
    forall r | r in regs ensures EqualityAt(KeyMatches, regs, r.key) {
      PlainRoutesAreEquality(regs, r.key);
    }
    PlainRoutesAreEquality(regs, u);
    TableIsMap(KeyMatches, regs, |regs|, u);
    var t := TableOf(regs);
    var s := Slot(KeyMatches, t, u);
    if s < |t| {
      ResolveHit(t, s, req.target, req.verb);
      var first, last := SlotOrigin(KeyMatches, regs, |regs|, s);
      assert |Unmatched(regs[first].key.path)| == 1;
      assert PairsOf(QueryPieces(req.target)) + [] == PairsOf(QueryPieces(req.target));
    }
  }

  /** Registering the templates the router is used with a second time changes
      no key and no table size; the key then answers with the new handler. */
  lemma {:induction false} SlashShapedIdempotent<H>(regs: seq<Route<H>>, key: RequestMapper,
                                                    h: Stored<H>, h': Stored<H>)
    requires SlashShaped(key.path) && SlashFree(Matched(key.path))
    ensures var once := TableOf(regs + [Registration(key, h)]);
            var twice := TableOf(regs + [Registration(key, h)] + [Registration(key, h')]);
            && KeepsKeys(once, twice) && |twice| == |once|
            && Lookup(KeyMatches, twice, key) == Some(h')
            && forall i :: 0 <= i < |once| && i != Slot(KeyMatches, once, key) ==> twice[i] == once[i]
  {
    var t := TableOf(regs);
    var once := TableOf(regs + [Registration(key, h)]);
    var twice := TableOf(regs + [Registration(key, h)] + [Registration(key, h')]);
    TableOfAppend(regs, Registration(key, h));
    TableOfAppend(regs + [Registration(key, h)], Registration(key, h'));
    SlashShapedReflexive(key);
    SlotAfterOwn(KeyMatches, t, key, h);
    ReregistrationReplaces(KeyMatches, t, key, h, h');
    SlotKept(KeyMatches, once, twice, key);
  }

  /** A template with several pieces that ends in a placeholder is appended
      every single time, unless an earlier key takes it; and the entry appended
      the second time never answers a request. */
  lemma {:induction false} EndingInPlaceholderGrows<H>(regs: seq<Route<H>>, key: RequestMapper,
                                                       h: Stored<H>, h': Stored<H>, u: RequestMapper)
    requires |Unmatched(key.path)| > 1 && |Unmatched(key.path)| == |Matched(key.path)|
    requires Lookup(KeyMatches, TableOf(regs), key) == None
    ensures var once := TableOf(regs + [Registration(key, h)]);
            var twice := TableOf(regs + [Registration(key, h)] + [Registration(key, h')]);
            && once == TableOf(regs) + [Entry(key, Some(h))]
            && twice == once + [Entry(key, Some(h'))]
            && Slot(KeyMatches, twice, u) != |once|
            && Lookup(KeyMatches, twice, u) == Lookup(KeyMatches, once, u)
  {
    var t := TableOf(regs);
    var once := TableOf(regs + [Registration(key, h)]);
    TableOfAppend(regs, Registration(key, h));
    TableOfAppend(regs + [Registration(key, h)], Registration(key, h'));
    EndingInPlaceholderNotReflexive(key);
    SlotAfterOwn(KeyMatches, t, key, h);
    SecondNeverAnswers(once, |t|, Entry(key, Some(h')), u);
  }

  /** An entry behind one with the same key is never found. */
  lemma {:induction false} SecondNeverAnswers<H>(t: HandlerTable<H>, i: nat, e: Entry<RequestMapper, Option<Stored<H>>>,
                                                 u: RequestMapper)
    requires i < |t| && t[i].key == e.key
    ensures Slot(KeyMatches, t + [e], u) != |t|
    ensures Lookup(KeyMatches, t + [e], u) == Lookup(KeyMatches, t, u)
  {
    SlotAppend(KeyMatches, t, [e], u);
    SlotIs(KeyMatches, [e], u, if KeyMatches(e.key, u) then 0 else 1);
  }

  // ------------------------------------------------------- parameter lookup

  /** Query parameters come first, so one with a placeholder's name hides the
      value taken from the path. */
  lemma {:induction false} QueryHidesPath(query: seq<Parameter>, path: seq<Parameter>, name: string)
    ensures ValueOf(query + path, name) ==
            if exists p <- query :: p.name == name then ValueOf(query, name) else ValueOf(path, name)
    decreases |query|
  {
    if query == [] {
      assert query + path == path;
    } else {
      var rest := query[1..];
      QueryHidesPath(rest, path, name);
      assert query == [query[0]] + rest;
      assert (query + path)[1..] == rest + path;
    }
  }
}
