/** The two routes of the dump server (dump_server/dump_uploader.hpp) as an
    instance of the dispatch theorem. */
module DumpUploader {
  import opened Text
  import opened RegexRange
  import opened Placement
  import opened RequestMappers
  import opened HttpTargetParser
  import opened Registry
  import opened FlatMaps
  import opened HttpServer
  import opened Dispatching

  const DUMP := "/redfish/v1/Systems/system/LogServices/Dump/"
  const ATTACHMENT := "/attachment"
  const UPLOAD_PATH := DUMP + "{filename}" + ATTACHMENT
  const ENTRIES_PATH := DUMP + "Entries"

  /** The kind of body that the stream readers give every request they read. */
  const READ_BODY := StringBody

  /** Both handlers take a request with a dynamic body, so both are stored in
      the wrapper that insists on one. */
  function Routes<H>(upload: H, entries: H): seq<Route<H>> {
    [Registration(RequestMapper(UPLOAD_PATH, Get), Stored(Some(DynamicBody), upload)),
     Registration(RequestMapper(ENTRIES_PATH, Get), Stored(Some(DynamicBody), entries))]
  }

  /** The body of the DumpUploader constructor. */
  method Install<H>(router: HttpRouter<H>, upload: H, entries: H)
    requires router.Valid()
    modifies router, router.getHandlers
    ensures router.Valid()
    ensures router.history == old(router.history) + Routes(upload, entries)
  {
    router.AddGetHandler(UPLOAD_PATH, true, upload);
    router.AddGetHandler(ENTRIES_PATH, true, entries);
  }

  lemma {:induction false} UploadTemplate()
    ensures Unmatched(UPLOAD_PATH) == [DUMP, ATTACHMENT]
    ensures Matched(UPLOAD_PATH) == ["filename"]
    ensures SlashShaped(UPLOAD_PATH)
  {
    var lits, names := [DUMP, ATTACHMENT], ["filename"];
    assert Braced(names) == [Brace("filename")] && Brace("filename") == "{filename}";
    FillTwo(DUMP, "{filename}", ATTACHMENT);
    RecoversRendering(lits, names);
  }

  lemma {:induction false} EntriesTemplate()
    ensures Unmatched(ENTRIES_PATH) == [ENTRIES_PATH]
  {
    FillOne(ENTRIES_PATH);
    assert Braced([]) == [];
    assert PlainLiteral(DUMP) && PlainLiteral("Entries");
    RecoversRendering([ENTRIES_PATH], []);
  }

  /** Whatever matches the upload template ends in its trailing literal. */
  lemma {:induction false} UploadNeedsAttachment(path: string)
    requires KeyMatches(RequestMapper(UPLOAD_PATH, Get), RequestMapper(path, Get))
    ensures |path| >= |ATTACHMENT| && path[|path| - |ATTACHMENT|..] == ATTACHMENT
  {
    UploadTemplate();
    var ps := Unmatched(UPLOAD_PATH);
    var o: seq<nat> :| PlacesAll(ps, path, o);
    assert PlacedAt(ps, path, o, 1);
    assert Start(ps, o, 2) == |path|;
  }

  lemma {:induction false} EntriesPathFacts()
    ensures PlainPath(ENTRIES_PATH)
    ensures !KeyMatches(RequestMapper(UPLOAD_PATH, Get), RequestMapper(ENTRIES_PATH, Get))
  {
    var n := |DUMP| - 1;
    assert ENTRIES_PATH[n..] == "/Entries";
    assert ENTRIES_PATH[n] == '/';
    assert forall k :: n < k < |ENTRIES_PATH| ==> ENTRIES_PATH[k] == "Entries"[k - n - 1];
    assert LastIndexOf(ENTRIES_PATH, '/') == Some(n);
    assert ENTRIES_PATH[|ENTRIES_PATH| - 1] == 's';
    if KeyMatches(RequestMapper(UPLOAD_PATH, Get), RequestMapper(ENTRIES_PATH, Get)) {
      UploadNeedsAttachment(ENTRIES_PATH);
      assert false;
    }
  }

  lemma {:induction false} RoutesTable<H>(upload: H, entries: H)
    ensures var regs := Routes(upload, entries);
            TableOf(regs) ==
            [Entry(regs[0].key, Some(regs[0].handler)), Entry(regs[1].key, Some(regs[1].handler))]
  {
    var regs := Routes(upload, entries);
    EntriesPathFacts();
    TakenOver(regs[0], regs[1]);
  }

  /** The upload template, filled with a file name. */
  lemma {:induction false} UploadFilled(name: string)
    ensures |Unmatched(UPLOAD_PATH)| == 2 && |Matched(UPLOAD_PATH)| == 1
    ensures Fill(Unmatched(UPLOAD_PATH), [name]) == DUMP + name + ATTACHMENT
    ensures NamedValues(Matched(UPLOAD_PATH), [name]) == [Parameter("filename", name)]
  {
    UploadTemplate();
    FillTwo(DUMP, name, ATTACHMENT);
  }

  lemma {:induction false} UploadFillable<H>(upload: H, entries: H, name: string)
    requires '/' !in name
    ensures Fillable(TableOf(Routes(upload, entries)), 0, [name])
  {
    UploadTemplate();
    RoutesTable(upload, entries);
    AttachmentIsPlain();
  }

  /** Every slash-free file name leads to the upload handler, with the name
      behind whatever the query carries; the handler is called exactly if the
      body of the request is dynamic. */
  lemma {:induction false} UploadIsResolved<H>(upload: H, entries: H, name: string, pairs: seq<Parameter>,
                                               body: BodyKind)
    requires '/' !in name
    requires Without(pairs, '/') && Without(pairs, '&') && Without(pairs, '=')
    ensures var path := "/redfish/v1/Systems/system/LogServices/Dump/" + name + "/attachment";
            var req := Request(PrintTarget(path, pairs), Get, body);
            && WellFormedQuery(req.target)
            && Dispatch(TableOf(Routes(upload, entries)), req) ==
               if body == DynamicBody
               then Handled(upload, path, pairs + [Parameter("filename", name)])
               else BodyMismatch
  {
    UploadFillable(upload, entries, name);
    UploadFilled(name);
    var last := EndToEnd(Routes(upload, entries), 0, [name], pairs, body);
    RoutesTable(upload, entries);
    WrittenSlots(upload, entries);
  }

  /** The file name that the upload handler then looks up: the one of the path,
      unless the query has one too. */
  lemma {:induction false} FileNameLookedUp(pairs: seq<Parameter>, name: string)
    ensures ValueOf(pairs + [Parameter("filename", name)], "filename") ==
            if exists p <- pairs :: p.name == "filename" then ValueOf(pairs, "filename") else name
  {
    QueryHidesPath(pairs, [Parameter("filename", name)], "filename");
  }

  lemma {:induction false} AttachmentIsPlain()
    ensures '?' !in ATTACHMENT[LastIndexOfSlash(ATTACHMENT)..]
  {
    assert '?' !in ATTACHMENT;
  }

  lemma {:induction false} WrittenSlots<H>(upload: H, entries: H)
    ensures Written(KeyMatches, Routes(upload, entries), 0) == 0
    ensures Written(KeyMatches, Routes(upload, entries), 1) == 1
  {
    RoutesTable(upload, entries);
    var first, last := SlotOrigin(KeyMatches, Routes(upload, entries), 2, 0);
    first, last := SlotOrigin(KeyMatches, Routes(upload, entries), 2, 1);
  }

  /** The entries route, registered second, is not taken by the first; its
      handler too is called exactly if the body of the request is dynamic. */
  lemma {:induction false} EntriesIsResolved<H>(upload: H, entries: H, body: BodyKind)
    ensures var path := "/redfish/v1/Systems/system/LogServices/Dump/" + "Entries";
            && WellFormedQuery(path)
            && Dispatch(TableOf(Routes(upload, entries)), Request(path, Get, body)) ==
               if body == DynamicBody then Handled(entries, path, []) else BodyMismatch
  {
    EntriesTemplate();
    EntriesPathFacts();
    PlainPathParses(ENTRIES_PATH);
    RoutesTable(upload, entries);
    var t, u := TableOf(Routes(upload, entries)), RequestMapper(ENTRIES_PATH, Get);
    SinglePieceIsEquality(u, u);
    GoesToSlot(t, 1, u);
    ResolveHit(t, 1, ENTRIES_PATH, Get);
  }

  /** As the readers only make requests with string bodies, no request that
      the dump server reads ever reaches either handler, whatever its target
      and verb: it is not found, or its body is refused. */
  lemma {:induction false} NoReadRequestIsHandled<H>(upload: H, entries: H, target: string, verb: Verb)
    requires WellFormedQuery(target)
    ensures var outcome := Dispatch(TableOf(Routes(upload, entries)), Request(target, verb, READ_BODY));
            outcome.NotFound? || outcome.BodyMismatch?
  {
    var regs, req := Routes(upload, entries), Request(target, verb, READ_BODY);
    if !Dispatch(TableOf(regs), req).NotFound? {
      var last := AnsweredByOwnVerb(regs, req);
    }
  }
}
