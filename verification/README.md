# Verification model of chaibeast

This project models the request routing of chaibeast, a small C++ HTTP library on Boost.Beast, together with its chunked base64 body, the route table of its reverse proxy and the accept chain of its TLS server, and proves what those parts promise. `dafny verify dfyconfig.toml` checks all of it. Automatic induction is switched off for every lemma; each induction is written out.

**Routing.** A route is a template such as `/a/{x}/b`. `RegexRange` is the tokeniser: the pattern `\{(.*?)\}` as a brace scanner, line terminators included. `Placement` is the theory of putting the literal pieces of a template into a URL: arbitrary ordered placements, the leftmost one, and the gaps between pieces. `RequestMappers` holds the key equality of the registry; its meaning `KeyMatches` is declarative (some placement of the pieces exists and every placement uses the URL up), and the string-cutting loop of the source is proved to decide it. `HttpTargetParser` holds the target parser and the second, offset-accumulating scan that cuts the placeholder values out. `TemplateRoundTrip` relates the two scans. `FlatMaps` and `Registry` are the vector map and the theory of registration runs, for any key equality whatsoever. `HttpServer` is the router with its three tables and the wrappers that make a handler insist on one kind of request body; its invariant says that each table is one single table cut down to the verbs of its class, so that `ProcessRequest` is proved to answer as the single table would. `Dispatching` states the end-to-end results over all registration runs and `DumpUploader` is the instance the dump server registers.

**Base64 body.** `Base64FileBody` has the encoding of section 4 of RFC 4648, its decoder, the promised size on 64-bit words, and the writer that encodes one read at a time into its own buffer. The buffer length is a parameter and reads may be short.

**Reverse proxy.** `RequestForwarders` builds the table from a configuration and answers lookups under an arbitrary iteration order of the hash map.

**Accept chain.** `AcceptChain` is a state machine: the event loop runs any queued task, the thread pool advances any connection, every network outcome is open. Its class `Server` keeps the same state in fields and is proved to take the machine's steps.

## What the code does not do

Some properties one might expect are false of the code. Each has a lemma with the exact condition:

- Greedy matching is not pattern matching: `/a/{x}/b` rejects `/a/x/b/b` (`RequestMappers.GreedyRejectsAFilling`, with the exact condition for filled URLs in `FilledAcceptedIff`). The accepted language is `RequestMappers.MatchedLanguage`; in particular the first literal is not anchored.
- A template with several pieces that ends in a placeholder never matches its own text, so registering it again, unless an earlier key takes it, appends a second entry that no request ever reaches (`RequestMappers.EndingInPlaceholderNotReflexive`, `Dispatching.EndingInPlaceholderGrows`); in general re-registration keeps the table's shape under the condition of `Registry.ReregistrationShape`.
- Filling a template and extracting is the identity exactly when no literal occurs early in the value before it (`TemplateRoundTrip.FillThenExtractIff`).
- A route can take over another's requests: when a registered template matches the path of a later registration, its entry keeps its key and gets the later handler. After `/a/{x}/b` and then `/a/1/b`, a request for `/a/2/b` goes to the second handler, whose own path does not match it; after `/a/{x}/b` and `/a/{y}/b` the value goes by the name `x` (`Dispatching.SecondTakesOver`). For two routes the exact condition is `TwoRoutesIff`; two whose handlers and names differ, the first slash-shaped, always go astray on some request (`DifferentNamesGoAstray`); for any run it is enough that no registered key matches a different later one (`AnsweredByOwnKey`).
- A printed target reads back exactly when its path is one that parses to itself and no key or value contains `/`, `&` or `=`, or when there is neither path nor pair (`HttpTargetParser.QueryRoundTrip`).
- A query value is cut at an `=` in it: `sig=ab==` gives `ab` (`HttpTargetParser.PairStopsAtSecondEquals`, `ValueCutAtEquals`).
- A query parameter hides a path parameter of the same name (`Dispatching.QueryHidesPath`).
- A handler registered for one kind of body is called only for requests of that kind (`Dispatching.EndToEnd`, `AnsweredByOwnVerb`). The stream readers make every request one with a string body (include/streams.hpp:28-34, 100-106) and both dump handlers take dynamic bodies, so no request that the dump server reads reaches them (`DumpUploader.NoReadRequestIsHandled`).
- The chunked base64 body is the encoding of the file only if every chunk but the last is a multiple of three bytes, and its length is the promised one only if the chunks are padded by at most two characters altogether. With full reads of 4096 bytes the content is right only up to 4096 bytes (`Base64FileBody.ChunkedIsWholeIff`, `SentAgainstPromise`, `UsualBuffer`).
- The forwarder chosen depends on the hash map's order exactly when two wildcards that hit the path lead to different outcomes (`RequestForwarders.OrderIndependentIff`).
- A wildcard that hits is looked up again as a C string, so one with a NUL in it leads to the route of the part before the NUL, or to an error if there is none: with `/a\0*` and `/a` configured, the path `/a\0x` gets the route of `/a` (`RequestForwarders.NulLeadsAstray`; the condition is in `RouteSelection`). A path without NUL never meets this (`RouteSelectionPlain`).

## Model

| member | source | states |
|---|---|---|
| RegexRange.NextMatch | include/regex_range.hpp:9-12 | the brace pair found is a match of the pattern and no match starts earlier; none found means none exists |
| RegexRange.Unmatched | include/regex_range.hpp:35-43 | m placeholders give m or m+1 pieces, and always at least one |
| RegexRange.RebuildsTemplate | include/regex_range.hpp:30-47 | for every template whatsoever, interleaving the pieces with the braced names gives the template back |
| RegexRange.UnmatchedAndLiterals | include/regex_range.hpp:40-43 | the token iterator leaves out exactly an empty trailing literal behind a placeholder |
| RegexRange.RecoversRendering | include/regex_range.hpp:30-47 | tokenising a rendering of brace-free literals and one-line names recovers both lists, up to an omitted empty trailing literal |
| RegexRange.LineBreakHides | include/http_target_parser.hpp:74 | a line feed or carriage return between the braces leaves no placeholder, only literal text |
| RegexRange.MatchIndices | include/regex_range.hpp:13-29 | the fold with its running length reports, for each placeholder, the length of all the text woven before it |
| RegexRange.OffsetsAreTrue | include/regex_range.hpp:13-29 | at each reported offset the braced name really stands, with its literal directly in front |
| RequestMappers.Equals | include/request_mapper.hpp:11-35 | the truncating loop returns true iff the verbs agree and, for one piece, the paths are equal, for several, some ordered placement of the pieces exists and every one ends at the end of the URL |
| Placement.LeftmostIsLeast | include/request_mapper.hpp:18-28 | the exchange argument: the placement the scan finds is pointwise no later than any other ordered placement |
| Placement.LeftmostExists | include/request_mapper.hpp:18-28 | the scan succeeds whenever any placement exists |
| Placement.TightIffLeftmostEnds | include/request_mapper.hpp:16-34 | every placement uses the URL up iff the leftmost one does |
| Placement.AcceptedLanguage | include/request_mapper.hpp:16-34 | a URL is accepted iff it is spelled by gaps in which no piece occurs before its place |
| Placement.SpellingUnique | include/request_mapper.hpp:16-34 | a URL is spelled by a template in at most one way |
| RequestMappers.MatchedLanguage | include/request_mapper.hpp:11-35 | the accepted language of a template of several pieces, both directions |
| RequestMappers.SinglePieceIsEquality | include/request_mapper.hpp:29-33 | a template of one piece, with or without a placeholder, matches only the equal key |
| RequestMappers.NotFoundMeansNoMatch | include/request_mapper.hpp:22-25 | a missing piece rules out every placement, and for one piece equality of the paths |
| RequestMappers.FilledAcceptedIff | include/request_mapper.hpp:16-34 | a URL made by filling a template of several pieces is accepted iff the last literal does not occur between the leftmost places of the others and its own place |
| RequestMappers.GreedyRejectsAFilling | include/request_mapper.hpp:16-34 | the template `/a/{x}/b` filled with `x/b` gives `/a/x/b/b`, which it rejects |
| RequestMappers.ReflexiveIff | include/request_mapper.hpp:11-35 | a template with a trailing literal matches its own text iff that literal does not occur between the leftmost places of the others and its own place |
| RequestMappers.EndingInPlaceholderNotReflexive | include/request_mapper.hpp:11-35 | a template of several pieces ending in a placeholder never matches its own text |
| RequestMappers.SlashShapedReflexive | include/request_mapper.hpp:11-35 | a template with slash-led literals and slash-free names matches its own text |
| Utilities.JoinOfSplit | include/utilities.hpp:11-14 | joining the pieces restores any input and no piece contains the delimiter |
| Utilities.SplitOfJoin | include/utilities.hpp:11-14 | a list of delimiter-free pieces survives join then split iff it is not the one-element list of the empty string |
| Utilities.SplitImage | include/utilities.hpp:11-14 | exactly which lists split can return |
| HttpTargetParser.ParseFunction | include/http_target_parser.hpp:48-70 | the parsed name and the parameters, pair by pair, of any target whose query pieces have an `=` |
| HttpTargetParser.ReadPairs | include/http_target_parser.hpp:58-62 | the loop reads one parameter per query piece, in order |
| HttpTargetParser.TargetSplits | include/http_target_parser.hpp:49-66 | a plain path followed by `?` and slash-free text parses to that path and the `&`-pieces of that text |
| HttpTargetParser.PlainPathParses | include/http_target_parser.hpp:67 | a path without query parses to itself without parameters |
| HttpTargetParser.ParseThenPrint | include/http_target_parser.hpp:48-70 | for every target with a slash, name and query pieces print to the target again and the name is a path that parses to itself; without a slash nothing is read |
| HttpTargetParser.PairRoundTrip | include/http_target_parser.hpp:60-61 | a printed pair reads back iff neither half contains `=` |
| HttpTargetParser.PairStopsAtSecondEquals | include/http_target_parser.hpp:60-61 | key and value of a query piece are the texts before its first and its second `=`; what follows is dropped |
| HttpTargetParser.ValueCutAtEquals | include/http_target_parser.hpp:48-70 | so a value with an `=` in it, such as a padded base64 text, arrives cut |
| HttpTargetParser.ValueOfFirst | include/http_target_parser.hpp:21-28 | lookup by name gives the value of the first such parameter, the empty text if there is none |
| HttpTargetParser.QueryRoundTrip | include/http_target_parser.hpp:48-70 | a target printed from any path and pairs parses to exactly these iff the path has a slash and no `?` behind its last one and no key or value contains `/`, `&` or `=`, or there is neither path nor pair; empty keys, values and lists included |
| HttpTargetParser.AccumulatedIsLeftmost | include/http_target_parser.hpp:79-92 | on a path with a leftmost placement the accumulation never misses and gives the start and end of each piece in it |
| HttpTargetParser.NoMissIsLeftmost | include/http_target_parser.hpp:79-92 | conversely, an accumulation in which no piece starts before the previous end has found a leftmost placement |
| HttpTargetParser.EndIndices | include/http_target_parser.hpp:79-92 | on every path the offsets or the error of the accumulation, with -1 for a missed piece; on a path with a leftmost placement the ends of that placement |
| HttpTargetParser.CutsAreGaps | include/http_target_parser.hpp:93-101 | between the ends of a placement the cuts are exactly the texts between consecutive pieces |
| HttpTargetParser.CutBetween | include/http_target_parser.hpp:93-101 | adjacent differences cut out the text from each end to the next start, and throw iff an end lies behind the path |
| HttpTargetParser.AccumulatedWithin | include/http_target_parser.hpp:79-92 | on every path, misses included, the last end and the text not yet searched make up the path |
| HttpTargetParser.ExtractionFailsIff | include/http_target_parser.hpp:71-111 | extraction fails iff the template has several pieces and the accumulation cuts past the end; cutting between accumulated offsets never fails |
| HttpTargetParser.ExtractionByCutting | include/http_target_parser.hpp:71-111 | for every template and path, matched or not, the offset and substring arithmetic amounts to cutting the path down piece by piece: which texts come under which names, what a missing piece does, and when it is an error |
| HttpTargetParser.ExtractionIsCapture | include/http_target_parser.hpp:71-111 | on every path that a template of several pieces can be scanned over, extraction does not fail and yields the captured values |
| HttpTargetParser.ExtractParamsFromPath | include/http_target_parser.hpp:71-111 | for every template and path: thrown exactly where extraction fails, with nothing changed; else the name stays and the extracted parameters are appended, the captured ones after a match |
| HttpTargetParser.CapturedIs | include/http_target_parser.hpp:71-111 | the captured parameters are the names paired with the gaps of the one leftmost placement, none if the template ends in a placeholder |
| TemplateRoundTrip.ScansAgree | include/request_mapper.hpp:16-34 | the matcher accepts iff the verbs agree and the offset accumulation does not fail, misses no piece and ends at the end of the URL, which it does iff a leftmost placement of all pieces ends there; so extraction after a match never fails |
| TemplateRoundTrip.FillThenExtractIff | include/http_target_parser.hpp:71-111 | the filled URL is accepted and yields exactly its values in order iff no literal occurs early in the value before it |
| TemplateRoundTrip.FillThenExtract | include/http_target_parser.hpp:71-111 | that identity for slash-led literals and slash-free values |
| TemplateRoundTrip.ExtractThenFill | include/http_target_parser.hpp:71-111 | for every accepted URL there is one value per placeholder and refilling gives the URL from the first occurrence of the first literal on |
| FlatMaps.FlatMap.Find | include/flat_map.hpp:19-23 | the first entry whose stored key matches, else the end |
| FlatMaps.FlatMap.Index | include/flat_map.hpp:28-36 | the slot found, or a new blank slot at the back; nothing else changes |
| FlatMaps.FlatMap.Put | include/flat_map.hpp:37-41 | appends the entry and refers to it |
| FlatMaps.FlatMap.Remove | include/flat_map.hpp:42-49 | takes out the first matching entry only |
| Registry.RemovedSlot | include/flat_map.hpp:42-49 | after a removal every request keeps its entry, except that those of the removed slot go to the next matching one |
| Registry.RunInvariant | include/flat_map.hpp:19-41 | after any run no stored key matches a key stored after it, and no slot is null |
| Registry.KeysNeverMove | include/flat_map.hpp:28-41 | later registrations leave every key in its place |
| Registry.ResolutionIsStable | include/flat_map.hpp:19-36 | a request that resolves to a slot resolves to it after every later registration |
| Registry.SlotOrigin | include/flat_map.hpp:28-41 | a slot's key is that of the first registration that wrote it, its handler that of the last |
| Registry.LatestHandlerAnswers | include/http_server.hpp:33-37 | the handler answering a request is that of the latest registration that resolved to the request's slot |
| Registry.ReregistrationShape | include/http_server.hpp:33-37 | registering a key twice leaves the table size alone iff an earlier key takes it or it matches itself |
| Registry.ReregistrationReplaces | include/http_server.hpp:33-37 | and then changes nothing but the handler in that slot |
| Registry.TableIsMap | include/flat_map.hpp:19-41 | where matching is equality, the table agrees with an ordinary map on membership and value |
| Registry.SlotInPart | include/http_server.hpp:87-108 | a request finds the same entry in its verb class's table as in the single table |
| Registry.RegisterInPart | include/http_server.hpp:33-37 | registering in the class table is registering in the single table |
| HttpServer.HttpRouter.constructor | include/http_server.hpp:126-128 | three separate empty tables |
| HttpServer.HttpRouter.HandlerForVerb | include/http_server.hpp:87-100 | PUT shares the POST table, verbs without a table use the GET one |
| HttpServer.HttpRouter.AddHandler | include/http_server.hpp:33-37 | each of the three tables stays the single table of all registrations cut down to its verbs |
| HttpServer.HttpRouter.AddGetHandler | include/http_server.hpp:38-48 | registers for GET, wrapped to insist on a dynamic body if the handler takes one |
| HttpServer.HttpRouter.AddPostHandler | include/http_server.hpp:50-67 | registers for POST, bare or wrapped to insist on a dynamic or a string body |
| HttpServer.HttpRouter.AddPutHandler | include/http_server.hpp:69-79 | registers for PUT, wrapped to insist on a dynamic body if the handler takes one |
| HttpServer.HttpRouter.ProcessRequest | include/http_server.hpp:102-115 | the outcome is that of dispatch through the single table of all registrations: the function called with name, query pairs, then path parameters; or its refusal of the kind of body; or not found; never an extraction error |
| Dispatching.FilledUrlResolves | include/http_server.hpp:102-115 | a stored template filled with values in which no literal occurs early, with or without a query, resolves to its own slot with the query pairs followed by the values, unless an earlier key claims the URL |
| Dispatching.EndToEnd | include/http_server.hpp:102-115 | for every registration run, slash-shaped template, slash-free values, printed query and kind of body: the handler registered last for that slot is called with the pairs followed by the named values iff it takes that body, else the body is refused |
| Dispatching.AnsweredByOwnVerb | include/request_mapper.hpp:14-15 | after any run a request that is found goes to a handler registered for its own verb, whose function is called iff it takes the kind of body |
| Dispatching.AnsweredByOwnKey | include/http_server.hpp:102-115 | if no registered key matches a different later one, every resolved request goes to the latest registration for its slot, whose own template matches it, with the values under its own names |
| Dispatching.SecondTakesOver | include/http_server.hpp:33-37 | after `/a/{x}/b` and then `/a/v/b` a request for `/a/w/b` resolves to the second handler with `w` named `x`, though `/a/v/b` without a brace matches no other path |
| Dispatching.TwoRoutesIff | include/http_server.hpp:33-37 | two routes answer every request by a matching template, its handler and its names iff the first does not match the second's path, or the handlers are equal, or the second takes the same values from every request path that the first matches |
| Dispatching.DifferentNamesGoAstray | include/http_server.hpp:33-37 | two routes with different handlers and names, the first slash-shaped and matching the second's path, answer some request by neither's own terms |
| Dispatching.AnswersPersist | include/http_server.hpp:102-115 | a resolved request stays resolved with the same parameters after every further registration |
| Dispatching.PlainRouterIsMap | include/http_server.hpp:102-115 | a router of one-piece paths is the map from path and verb to the last handler, not found exactly off its domain, refused exactly for bodies the handler does not take |
| Dispatching.SlashShapedIdempotent | include/http_server.hpp:33-37 | re-registering a slash-shaped template changes no key, no size and no other slot, and answers with the new handler |
| Dispatching.EndingInPlaceholderGrows | include/http_server.hpp:33-37 | re-registering a template that ends in a placeholder, unless an earlier key takes it, appends a second entry, to which no request ever resolves and which changes no lookup |
| Dispatching.QueryHidesPath | include/http_target_parser.hpp:21-28 | parameter lookup answers from the query whenever the query has the name |
| DumpUploader.Install | dump_server/dump_uploader.hpp:17-25 | the constructor registers the two routes below, both for dynamic bodies |
| DumpUploader.UploadIsResolved | dump_server/dump_uploader.hpp:19-21 | every slash-free file name, with any printed query, reaches the upload handler as the last parameter, iff the body is dynamic; any other body is refused |
| DumpUploader.FileNameLookedUp | dump_server/dump_uploader.hpp:67-72 | the handler then looks up the query value if a query parameter is called `filename`, else the file name |
| DumpUploader.EntriesIsResolved | dump_server/dump_uploader.hpp:22-24 | the entries path goes to the second handler, not the first, and reaches it iff the body is dynamic |
| DumpUploader.NoReadRequestIsHandled | include/common_defs.hpp:44-67 | no request with the string body that the stream readers make reaches either handler, whatever its target and verb |
| Base64FileBody.DecodeOfEncode | include/base64_file_body.hpp:56-57 | decoding the encoding of any bytes gives the bytes |
| Base64FileBody.EncodeIsTheRepresentation | include/base64_file_body.hpp:56-57 | the encoding is the one text of whole quanta with padding exactly for the missing bytes, alphabet symbols elsewhere and the same 24 bits in every quantum, zeros for what is missing |
| Base64FileBody.SymbolsAreAlphabet | include/base64_file_body.hpp:56-57 | the 64 symbols are those of the standard alphabet in its order |
| Base64FileBody.ValueIsPlace | include/base64_file_body.hpp:56-57 | a character stands for a value iff it has that place in the alphabet |
| Base64FileBody.EncodedLength | include/base64_file_body.hpp:25-28 | four characters for every three bytes begun |
| Base64FileBody.ChunkedIsWholeIff | include/base64_file_body.hpp:48-59 | chunk-by-chunk output is the encoding of the file iff every chunk but the last is a multiple of three bytes, and then decodes to the file |
| Base64FileBody.SizeIsEncodedLength | include/base64_file_body.hpp:25-28 | on 64-bit words the promised size is the encoded length iff that length fits |
| Base64FileBody.SentAgainstPromise | include/base64_file_body.hpp:25-59 | what is sent is never shorter than promised, by how much it is longer, and equal iff the total padding is at most two |
| Base64FileBody.FullReadsExactly | include/base64_file_body.hpp:25-59 | for a fixed buffer and full reads, exactly when content and length are right |
| Base64FileBody.UsualBuffer | include/base64_file_body.hpp:33-59 | the same at 4096 bytes, in terms of the file length |
| Base64FileBody.OutputFits | include/base64_file_body.hpp:33 | every chunk's encoding fits twice the input buffer iff that buffer is longer than one byte |
| Base64FileBody.Writer.Get | include/base64_file_body.hpp:48-59 | one call consumes the bytes read, leaves their encoding in the buffer and reports more to come; at the end of the file the whole output is right iff the reads were aligned |
| RequestForwarders.LastKnown | reverseproxy/include/request_forwarder.hpp:76-102 | the last record of a known kind with a property, if any |
| RequestForwarders.ConfiguredFrom | reverseproxy/include/request_forwarder.hpp:76-102 | the forwarder of a path has ip, port and kind of the last record there, the build's flexible kind if it names none, records of unknown kinds skipped; there is none iff all are skipped |
| RequestForwarders.DefaultFrom | reverseproxy/include/request_forwarder.hpp:94-100 | likewise the default, from the last record marked so |
| RequestForwarders.RequestForwarder.constructor | reverseproxy/include/request_forwarder.hpp:71-103 | the table holds, for each path, the last record of a known kind, and the default is the last such record marked so |
| RequestForwarders.RequestForwarder.AddRoute | reverseproxy/include/request_forwarder.hpp:106-110 | the path now leads to the route, all other paths as before |
| RequestForwarders.RequestForwarder.WildCardMatch | reverseproxy/include/request_forwarder.hpp:111-127 | nothing iff no beginning of the path with a star behind it is in the table, else what the first one in iteration order leads to through its C string |
| RequestForwarders.RequestForwarder.GetForwarder | reverseproxy/include/request_forwarder.hpp:128-140 | wildcard before exact path before default before nothing |
| RequestForwarders.HitsIff | reverseproxy/include/request_forwarder.hpp:114-121 | a wildcard hits a path iff it is a beginning of the path, the whole path and the empty text included, with a star behind it |
| RequestForwarders.WildcardAnswers | reverseproxy/include/request_forwarder.hpp:71-140 | with incomparable wildcards and any iteration order, a configured `p*` answers every path that begins with `p`, `p` itself included: with its own last record, or, if it has a NUL, with that of its C string or an error |
| RequestForwarders.ExactAnswers | reverseproxy/include/request_forwarder.hpp:128-140 | if no beginning of the path is configured with a star behind it, the exact record answers, else the default, else nothing, for every iteration order |
| RequestForwarders.OrderIndependentIff | reverseproxy/include/request_forwarder.hpp:111-140 | the answer is the same for all iteration orders iff all wildcards that hit lead to the same outcome through their C strings |
| RequestForwarders.OrderIndependentPlain | reverseproxy/include/request_forwarder.hpp:111-140 | for a path without NUL: iff those wildcards have the same forwarder |
| RequestForwarders.UniqueHitIff | reverseproxy/include/request_forwarder.hpp:111-127 | at most one wildcard ever hits any path iff the prefixes are pairwise incomparable |
| RequestForwarders.RouteSelection | reverseproxy/include/request_forwarder.hpp:71-140 | with incomparable wildcards and any iteration order: the last known record of the C string of the hitting wildcard, an error if it has none; without a hit that of the path, else the last known default, else nothing |
| RequestForwarders.RouteSelectionPlain | reverseproxy/include/request_forwarder.hpp:71-140 | for a path without NUL the record is that of the hitting wildcard itself |
| RequestForwarders.NulLeadsAstray | reverseproxy/include/request_forwarder.hpp:124 | a NUL in a wildcard path makes the lookup answer with another route, or raise an error |
| AcceptChain.OneTaskQueued | include/streams.hpp:141-176 | at every moment of every run exactly one chain task is queued |
| AcceptChain.ConnectionsConserved | include/streams.hpp:141-176 | accepted connections are the failed, the handed off and the at most one in progress; hand-offs keep accept order and skip exactly the failed ones |
| AcceptChain.OutcomesDecide | include/streams.hpp:141-176 | over every run: as many accepted as accepts succeeded; failed are exactly the connections whose handshake failed, in that order; handed off or waiting to be are exactly those whose handshake succeeded |
| AcceptChain.OneWriteThenClose | include/server.hpp:80-88 | at most one response write per connection, exactly one once it is done, and a close is tried only after a write that succeeded |
| AcceptChain.EveryJobTraced | include/server.hpp:80-88 | over every run the outcomes of a connection's stages and what was done on it fit its stage: the handler's answer is written iff read, select and process succeeded, the error page iff one failed, and the close is tried iff that write succeeded |
| AcceptChain.Server.DoAccept | include/streams.hpp:144-154 | the accept task's step: itself again on error, else a handshake for the new connection |
| AcceptChain.Server.DoHandshake | include/streams.hpp:154-172 | the handshake task's step: accept again on error, else the work task with the same connection |
| AcceptChain.Server.DoWork | include/streams.hpp:165-170 | the work task's step: hand the connection to the pool, then accept again |
| AcceptChain.Server.Advance | include/server.hpp:80-88 | one pipeline stage: errors before the write become the error page, an error of the write skips the close |

## Left out

- ParseFunction: a query piece without `=` makes the source read past the end of a vector, which is a precondition here.
- EndIndices: the source keeps offsets in `int`; the model's are unbounded.
- AcceptChain.Server: tasks are atomic between suspension points; coroutine stacks and moves of the socket object are not modelled, and an exception that leaves a task is excluded.
- Sockets, TLS contexts, HTTP parsing and serialising, the thread pool and the sender library: only success or failure of their steps is kept, as a parameter.
- `TCPStreamMaker::acceptAsyncConnection`: its accept never sets the error code that it checks; the TLS chain is the one modelled.
- Overload selection by the parameter type of a handler is a flag of `AddGetHandler`, `AddPostHandler` and `AddPutHandler`; `add_delete_handler` passes three arguments to `add_handler` and cannot be instantiated.
- `ExtractionByCutting` speaks of the model's unbounded offsets, like `EndIndices`.
- Handlers themselves, forwarder bodies and the file handling of the dump and file servers: input and output.
- JSON reading: the configuration is a list of records; a missing mandatory member, an error in the source, is not representable.
- `flat_map::contains` and `request_mapper::operator<`: nothing calls them.
- Iteration order of the hash map: any order of the keys, given as a parameter of the lookup.
- Short reads and read errors of the file: parameters of `Writer.Get`; a buffer of one byte is excluded there, since its output does not fit (`OutputFits`).
- `server_theme`, command-line parsing and `main` functions: demonstration and plumbing code.
