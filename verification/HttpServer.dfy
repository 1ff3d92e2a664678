/** HttpRouter (include/http_server.hpp): three handler tables updated in
    place, and the dispatch of a request through one of them. */
module HttpServer {
  import opened Text
  import opened RegexRange
  import opened RequestMappers
  import opened HttpTargetParser
  import opened TemplateRoundTrip
  import opened FlatMaps
  import opened Registry

  /** The alternatives of VariantRequest. */
  datatype BodyKind = FileBody | StringBody | DynamicBody

  datatype Request = Request(target: string, verb: Verb, body: BodyKind)

  /** A stored handler: the user's function, bare, or wrapped so that it only
      takes requests with one kind of body. */
  datatype Stored<+H> = Stored(body: Option<BodyKind>, func: H) {
    predicate Takes(kind: BodyKind) { body == None || body == Some(kind) }
  }

  type Route<+H> = Registration<RequestMapper, Stored<H>>
  type HandlerTable<+H> = Table<RequestMapper, Stored<H>>

  datatype VerbClass = GetClass | PostClass | DeleteClass

  /** Which table a verb uses: PUT shares one with POST, and a verb without a
      table of its own uses the one for GET. */
  function ClassOf(v: Verb): VerbClass {
    match v
    case Get => GetClass
    case Put => PostClass
    case Post => PostClass
    case Delete => DeleteClass
    case Other(_) => GetClass
  }

  ghost function InClass(c: VerbClass): RequestMapper -> bool {
    (k: RequestMapper) => ClassOf(k.verb) == c
  }

  lemma {:induction false} MatchRespectsClass(c: VerbClass)
    ensures Respects(KeyMatches, InClass(c))
  {
  }

  /** What a request leads to: the user's function called with the parsed
      function, the type mismatch that a wrapper throws, the file_not_found
      error, or an out_of_range error from extraction. */
  datatype Outcome<+H> =
    | Handled(func: H, name: string, params: seq<Parameter>)
    | BodyMismatch
    | NotFound(name: string)
    | OutOfRange

  /** handler_base::handle of a stored handler. */
  function Handle<H>(h: Stored<H>, kind: BodyKind, name: string, params: seq<Parameter>): Outcome<H> {
    if h.Takes(kind) then Handled(h.func, name, params) else BodyMismatch
  }

  /** The stored handler that a target and verb lead to, with what it is to be
      called with; the body of the request has no say in it. */
  datatype Resolution<+H> =
    | Resolved(handler: Stored<H>, name: string, params: seq<Parameter>)
    | Unresolved(name: string)

  /** What the template of the slot adds to the parameters. */
  ghost function PathParams(template: string, path: string): seq<Parameter>
    requires |Unmatched(template)| == 1 || Scannable(template, path)
  {
    if |Unmatched(template)| == 1 then [] else Captured(template, path)
  }

  /** The request key of a target. */
  function RequestKey(target: string, verb: Verb): RequestMapper {
    RequestMapper(NameOf(target), verb)
  }

  /** Resolution through one single table in registration order. */
  ghost function Resolve<H>(t: HandlerTable<H>, target: string, verb: Verb): Resolution<H>
    requires NoNull(t) && WellFormedQuery(target)
  {
    var u := RequestKey(target, verb);
    var s := Slot(KeyMatches, t, u);
    if s == |t| then Unresolved(u.path)
    else
      var template := t[s].key.path;
      assert |Unmatched(template)| > 1 ==> Scannable(template, u.path) by {
        if |Unmatched(template)| > 1 { ScansAgree(t[s].key, u); }
      }
      Resolved(t[s].value.value, u.path, PairsOf(QueryPieces(target)) + PathParams(template, u.path))
  }

  /** Dispatch of a request through one single table. */
  ghost function Dispatch<H>(t: HandlerTable<H>, req: Request): Outcome<H>
    requires NoNull(t) && WellFormedQuery(req.target)
  {
    match Resolve(t, req.target, req.verb)
    case Resolved(h, name, params) => Handle(h, req.body, name, params)
    case Unresolved(name) => NotFound(name)
  }

  /** The single table that a run of registrations makes. */
  ghost function TableOf<H>(regs: seq<Route<H>>): (t: HandlerTable<H>)
    ensures NoNull(t) && Unshadowed(KeyMatches, t)
  {
    RunInvariant(KeyMatches, regs, |regs|);
    Run(KeyMatches, regs, |regs|)
  }

  lemma {:induction false} TableOfAppend<H>(regs: seq<Route<H>>, r: Route<H>)
    ensures TableOf(regs + [r]) == Register(KeyMatches, TableOf(regs), r)
  {
    RunExtends(KeyMatches, regs, [r], |regs|);
  }

  /** What one more registration does to the table of a class. */
  lemma {:induction false} ClassTableAfter<H>(regs: seq<Route<H>>, r: Route<H>, c: VerbClass)
    ensures var before := Part(TableOf(regs), InClass(c));
            Part(TableOf(regs + [r]), InClass(c)) ==
            if c == ClassOf(r.key.verb) then Register(KeyMatches, before, r) else before
  {
    TableOfAppend(regs, r);
    MatchRespectsClass(c);
    RegisterInPart(KeyMatches, TableOf(regs), r, InClass(c));
  }

  class HttpRouter<H> {
    const getHandlers: FlatMap<Option<Stored<H>>>
    const postHandlers: FlatMap<Option<Stored<H>>>
    const deleteHandlers: FlatMap<Option<Stored<H>>>

    /** All registrations so far, of every verb. */
    ghost var history: seq<Route<H>>

    /** Each table is the single table of the whole history, cut down to the
        verbs of its class. */
    ghost predicate Valid()
      reads this, getHandlers, postHandlers, deleteHandlers
    {
      && getHandlers != postHandlers && getHandlers != deleteHandlers && postHandlers != deleteHandlers
      && getHandlers.blank == None && postHandlers.blank == None && deleteHandlers.blank == None
      && forall c: VerbClass :: HasPart(c)
    }

    ghost predicate HasPart(c: VerbClass)
      reads this, getHandlers, postHandlers, deleteHandlers
    {
      TableFor(c).entries == Part(TableOf(history), InClass(c))
    }

    constructor ()
      ensures Valid() && history == []
      ensures fresh(getHandlers) && fresh(postHandlers) && fresh(deleteHandlers)
    {
      getHandlers := new FlatMap<Option<Stored<H>>>(None);
      postHandlers := new FlatMap<Option<Stored<H>>>(None);
      deleteHandlers := new FlatMap<Option<Stored<H>>>(None);
      history := [];
    }

    function TableFor(c: VerbClass): FlatMap<Option<Stored<H>>> {
      match c
      case GetClass => getHandlers
      case PostClass => postHandlers
      case DeleteClass => deleteHandlers
    }

    method HandlerForVerb(v: Verb) returns (handlers: FlatMap<Option<Stored<H>>>)
      ensures handlers == TableFor(ClassOf(v))
      ensures v == Put || v == Post ==> handlers == postHandlers
      ensures v == Delete ==> handlers == deleteHandlers
      ensures v == Get || v.Other? ==> handlers == getHandlers
    {
      match v
      case Get => handlers := getHandlers;
      case Put => handlers := postHandlers;
      case Post => handlers := postHandlers;
      case Delete => handlers := deleteHandlers;
      case Other(_) => handlers := getHandlers;
    }

    method AddHandler(mapper: RequestMapper, h: Stored<H>)
      requires Valid()
      modifies this, TableFor(ClassOf(mapper.verb))
      ensures Valid()
      ensures history == old(history) + [Registration(mapper, h)]
    {
      var handlers := HandlerForVerb(mapper.verb);
      ghost var r := Registration(mapper, h);
      ghost var before := handlers.entries;
      var slot := handlers.Index(mapper);
      handlers.Assign(slot, Some(h));
      assert handlers.entries == Register(KeyMatches, before, r);
      history := history + [r];
      forall c: VerbClass ensures HasPart(c) {
        assert old(HasPart(c));
        ClassTableAfter(old(history), r, c);
      }
    }

    /** add_get_handler: the overload for handlers of dynamic bodies wraps
        them, the general one stores them bare. */
    method AddGetHandler(path: string, dynamic: bool, func: H)
      requires Valid()
      modifies this, getHandlers
      ensures Valid()
      ensures var body := if dynamic then Some(DynamicBody) else None;
              history == old(history) + [Registration(RequestMapper(path, Get), Stored(body, func))]
    {
      AddHandler(RequestMapper(path, Get), Stored(if dynamic then Some(DynamicBody) else None, func));
    }

    /** add_post_handler: wrapping overloads for dynamic and string bodies. */
    method AddPostHandler(path: string, body: Option<BodyKind>, func: H)
      requires Valid() && body != Some(FileBody)
      modifies this, postHandlers
      ensures Valid()
      ensures history == old(history) + [Registration(RequestMapper(path, Post), Stored(body, func))]
    {
      AddHandler(RequestMapper(path, Post), Stored(body, func));
    }

    /** add_put_handler: a wrapping overload for dynamic bodies. */
    method AddPutHandler(path: string, dynamic: bool, func: H)
      requires Valid()
      modifies this, postHandlers
      ensures Valid()
      ensures var body := if dynamic then Some(DynamicBody) else None;
              history == old(history) + [Registration(RequestMapper(path, Put), Stored(body, func))]
    {
      AddHandler(RequestMapper(path, Put), Stored(if dynamic then Some(DynamicBody) else None, func));
    }

    /** process_request: the answer is the one a single table would give. */
    method ProcessRequest(req: Request) returns (outcome: Outcome<H>)
      requires Valid() && WellFormedQuery(req.target)
      ensures outcome == Dispatch(TableOf(history), req)
    {
      var httpFunc := ParseFunction(req.target);
      var handlers := HandlerForVerb(req.verb);
      ghost var t, u := TableOf(history), RequestKey(req.target, req.verb);
      assert HasPart(ClassOf(req.verb));
      MatchRespectsClass(ClassOf(req.verb));
      SlotInPart(KeyMatches, t, u, InClass(ClassOf(req.verb)));
      var iter := handlers.Find(RequestMapper(httpFunc.name, req.verb));
      if iter < |handlers.entries| {
        var entry := handlers.entries[iter];
        assert entry == t[Slot(KeyMatches, t, u)];
        if |Unmatched(entry.key.path)| > 1 { ScansAgree(entry.key, u); }
        var thrown := ExtractParamsFromPath(httpFunc, entry.key.path, httpFunc.name);
        if thrown { return OutOfRange; }
        return Handle(entry.value.value, req.body, httpFunc.name, httpFunc.params);
      }
      return NotFound(httpFunc.name);
    }
  }
}
