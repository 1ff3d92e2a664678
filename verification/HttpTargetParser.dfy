/** Request targets (include/http_target_parser.hpp): the split into name and
    query parameters, and the second scan, which cuts the placeholder values
    out of a matched path. */
module HttpTargetParser {
  import opened Text
  import opened Utilities
  import opened RegexRange
  import opened Placement

  datatype Parameter = Parameter(name: string, value: string)

  /** http_function::operator[] on the parameter list: the first of that name. */
  function ValueOf(params: seq<Parameter>, name: string): string {
    if params == [] then ""
    else if params[0].name == name then params[0].value
    else ValueOf(params[1..], name)
  }

  /** It is the value of the first parameter of that name, "" if none has it. */
  lemma {:induction false} ValueOfFirst(params: seq<Parameter>, name: string, i: nat)
    requires i <= |params| && forall j :: 0 <= j < i ==> params[j].name != name
    requires i < |params| ==> params[i].name == name
    ensures ValueOf(params, name) == if i < |params| then params[i].value else ""
    decreases |params|
  {
    if i > 0 { ValueOfFirst(params[1..], name, i - 1); }
  }

  class HttpFunction {
    var name: string
    var params: seq<Parameter>

    constructor (name: string, params: seq<Parameter>)
      ensures this.name == name && this.params == params
    {
      this.name := name;
      this.params := params;
    }
  }

  // ------------------------------------------------------------ the target

  /** find_last_of: None stands for npos. */
  function LastIndexOf(s: string, c: char): (r: Option<nat>)
    ensures r.Some? ==> r.value < |s| && s[r.value] == c && forall k :: r.value < k < |s| ==> s[k] != c
    ensures r.None? ==> forall k :: 0 <= k < |s| ==> s[k] != c
  {
    if s == "" then None
    else
      var n := |s| - 1;
      if s[n] == c then Some(n) else LastIndexOf(s[..n], c)
  }

  /** The name part of a target: all of it up to the query, where only a `?`
      behind the last slash starts a query; empty without any slash. */
  function NameOf(target: string): string {
    var slash := LastIndexOf(target, '/');
    if slash.None? then ""
    else
      var tail := target[slash.value..];
      target[..slash.value] + tail[..IndexOf(tail, '?')]
  }

  function QueryPieces(target: string): seq<string> {
    var slash := LastIndexOf(target, '/');
    if slash.None? then []
    else
      var tail := target[slash.value..];
      var q := IndexOf(tail, '?');
      if q == |tail| then [] else Split(tail[q + 1..], '&')
  }

  /** What parse_function needs of its caller: it reads the second `=`-piece
      of every query piece without looking whether there is one. */
  predicate WellFormedQuery(target: string) {
    forall p <- QueryPieces(target) :: '=' in p
  }

  lemma {:induction false} EqualsGivesTwo(p: string)
    requires '=' in p
    ensures |Split(p, '=')| >= 2
  {
    IndexOfAbsent(p, '=');
    assert |Pieces(p[IndexOf(p, '=') + 1..], '=')| >= 1;
  }

  function PairOf(p: string): Parameter
    requires '=' in p
  {
    EqualsGivesTwo(p);
    var pair := Split(p, '=');
    Parameter(pair[0], pair[1])
  }

  function PairsOf(pieces: seq<string>): (r: seq<Parameter>)
    requires forall p <- pieces :: '=' in p
    ensures |r| == |pieces| && forall i :: 0 <= i < |r| ==> r[i] == PairOf(pieces[i])
  {
    seq(|pieces|, i requires 0 <= i < |pieces| => PairOf(pieces[i]))
  }

  /** The loop of parse_function over the query pieces. */
  method ReadPairs(params: seq<string>) returns (pairs: seq<Parameter>)
    requires forall p <- params :: '=' in p
    ensures pairs == PairsOf(params)
  {
    pairs := [];
    for n := 0 to |params|
      invariant |pairs| == n && forall i :: 0 <= i < n ==> pairs[i] == PairOf(params[i])
    {
      EqualsGivesTwo(params[n]);
      var pair := Split(params[n], '=');
      pairs := pairs + [Parameter(pair[0], pair[1])];
    }
  }

  lemma {:induction false} NoQuery(target: string, i: nat)
    requires LastIndexOf(target, '/') == Some(i) && IndexOf(target[i..], '?') == |target| - i
    ensures NameOf(target) == target && QueryPieces(target) == []
  {
    assert target[..i] + target[i..] == target;
  }

  method ParseFunction(target: string) returns (f: HttpFunction)
    requires WellFormedQuery(target)
    ensures fresh(f)
    ensures f.name == NameOf(target)
    ensures f.params == PairsOf(QueryPieces(target))
  {
    var index := LastIndexOf(target, '/');
    if index.Some? {
      var func := target[..index.value];
      var paramString := target[index.value..];
      var funcIndex := IndexOf(paramString, '?');
      if funcIndex < |paramString| {
        var params := Split(paramString[funcIndex + 1..], '&');
        assert params == QueryPieces(target);
        var pairs := ReadPairs(params);
        f := new HttpFunction(func + paramString[..funcIndex], pairs);
        return;
      }
      NoQuery(target, index.value);
      f := new HttpFunction(target, []);
      return;
    }
    f := new HttpFunction("", []);
  }

  // ------------------------------------------------------- query round trip

  function Printed(pairs: seq<Parameter>): (r: seq<string>)
    ensures |r| == |pairs|
    ensures forall i :: 0 <= i < |r| ==> r[i] == pairs[i].name + "=" + pairs[i].value
  {
    seq(|pairs|, i requires 0 <= i < |pairs| => pairs[i].name + "=" + pairs[i].value)
  }

  function PrintTarget(path: string, pairs: seq<Parameter>): string {
    path + "?" + Join(Printed(pairs), '&')
  }

  /** Paths that parse to themselves: a slash, and no `?` behind the last one. */
  predicate PlainPath(path: string) {
    var slash := LastIndexOf(path, '/');
    slash.Some? && '?' !in path[slash.value..]
  }

  predicate Without(pairs: seq<Parameter>, c: char) {
    forall p <- pairs :: c !in p.name && c !in p.value
  }

  lemma {:induction false} FreeJoin(pieces: seq<string>, delim: char, c: char)
    requires c != delim && Free(pieces, c)
    ensures c !in Join(pieces, delim)
    decreases |pieces|
  {
    if |pieces| == 1 {
      assert pieces[0] in pieces;
    } else if |pieces| > 1 {
      assert pieces[0] in pieces;
      FreeJoin(pieces[1..], delim, c);
    }
  }

  lemma {:induction false} PrintedFree(pairs: seq<Parameter>, c: char)
    requires c != '=' && Without(pairs, c)
    ensures Free(Printed(pairs), c)
  {
    forall s | s in Printed(pairs) ensures c !in s {
      var i :| 0 <= i < |pairs| && s == Printed(pairs)[i];
      assert pairs[i] in pairs;
    }
  }

  /** Text behind the last slash does not move it. */
  lemma {:induction false} LastSlashStays(path: string, more: string)
    requires '/' in path && '/' !in more
    ensures LastIndexOf(path, '/').Some? && LastIndexOf(path + more, '/') == LastIndexOf(path, '/')
  {
    var s := path + more;
    var i := LastIndexOf(path, '/').value;
    assert s[i] == '/';
    assert forall k :: i < k < |s| ==> s[k] == if k < |path| then path[k] else more[k - |path|];
  }

  /** Where the query of a target begins. */
  lemma {:induction false} TailOfTarget(path: string, query: string, i: nat)
    requires i < |path| && '?' !in path[i..]
    ensures var tail := (path + "?" + query)[i..];
            IndexOf(tail, '?') == |path| - i
            && tail[..|path| - i] == path[i..] && tail[|path| - i + 1..] == query
  {
    var tail := (path + "?" + query)[i..];
    assert tail == path[i..] + ['?'] + query;
    IndexOfFirst(path[i..], '?', query);
  }

  lemma {:induction false} HeadOfTarget(path: string, query: string, i: nat)
    requires i < |path|
    ensures (path + "?" + query)[..i] + path[i..] == path
  {
    assert (path + "?" + query)[..i] == path[..i];
  }

  lemma {:induction false} TargetSplits(path: string, query: string)
    requires PlainPath(path) && '/' !in query
    ensures NameOf(path + "?" + query) == path
    ensures QueryPieces(path + "?" + query) == Split(query, '&')
  {
    var target, more := path + "?" + query, "?" + query;
    assert target == path + more;
    assert '/' in path && '/' !in more;
    LastSlashStays(path, more);
    ParsesAt(path, query, LastIndexOf(path, '/').value);
  }

  lemma {:induction false} ParsesAt(path: string, query: string, i: nat)
    requires i < |path| && '?' !in path[i..]
    requires LastIndexOf(path + "?" + query, '/') == Some(i)
    ensures NameOf(path + "?" + query) == path
    ensures QueryPieces(path + "?" + query) == Split(query, '&')
  {
    TailOfTarget(path, query, i);
    HeadOfTarget(path, query, i);
  }

  lemma {:induction false} PlainPathParses(path: string)
    requires PlainPath(path)
    ensures NameOf(path) == path && QueryPieces(path) == []
  {
    var i := LastIndexOf(path, '/').value;
    IndexOfAbsent(path[i..], '?');
    NoQuery(path, i);
  }

  /** The other way round, for every target: without a slash nothing is read;
      otherwise the name is a plain path, and name and query pieces print to
      the target again, the pieces being free of slashes and ampersands. */
  lemma {:induction false} ParseThenPrint(target: string)
    ensures '/' !in target ==> NameOf(target) == "" && QueryPieces(target) == []
    ensures '/' in target ==>
              && PlainPath(NameOf(target))
              && Free(QueryPieces(target), '&') && '/' !in Join(QueryPieces(target), '&')
              && (if target == NameOf(target) then QueryPieces(target) == []
                  else target == NameOf(target) + "?" + Join(QueryPieces(target), '&'))
  {
    var slash := LastIndexOf(target, '/');
    if slash.Some? {
      var i := slash.value;
      var tail := target[i..];
      var q := IndexOf(tail, '?');
      PrefixIsPlain(target, i, q);
      if q == |tail| {
        NoQuery(target, i);
      } else {
        var query := tail[q + 1..];
        JoinOfSplit(query, '&');
        assert target == target[..i] + tail[..q] + "?" + query;
        assert forall k :: 0 <= k < |query| ==> query[k] == target[i + q + 1 + k];
      }
    }
  }

  lemma {:induction false} PrefixIsPlain(target: string, i: nat, q: nat)
    requires LastIndexOf(target, '/') == Some(i) && IndexOf(target[i..], '?') == q
    ensures NameOf(target) == target[..i + q]
    ensures PlainPath(target[..i + q])
  {
    var path := target[..i + q];
    assert target[i..][0] == '/';
    assert path == target[..i] + target[i..][..q];
    assert q > 0 && path[i] == '/';
    assert LastIndexOf(path, '/') == Some(i);
    assert path[i..] == target[i..][..q];
  }

  /** A printed pair reads back exactly when neither half contains `=`. */
  lemma {:induction false} PairRoundTrip(p: Parameter)
    ensures PairOf(p.name + "=" + p.value) == p <==> '=' !in p.name && '=' !in p.value
  {
    var s := p.name + "=" + p.value;
    JoinOfSplit(s, '=');
    EqualsGivesTwo(s);
    var pieces := Split(s, '=');
    assert pieces[0] in pieces && pieces[1] in pieces;
    if '=' !in p.name && '=' !in p.value {
      SplitOfJoin([p.name, p.value], '=');
      assert Join([p.name, p.value], '=') == s by {
        assert [p.name, p.value][1..] == [p.value];
      }
    }
  }

  /** A query piece is cut at its `=` signs, and all behind the second of them is
      dropped: key and value are the texts up to the first and the second. */
  lemma {:induction false} PairStopsAtSecondEquals(k: string, v: string, rest: string)
    requires '=' !in k && '=' !in v && (rest == "" || rest[0] == '=')
    ensures PairOf(k + "=" + v + rest) == Parameter(k, v)
  {
    var tail, s := v + rest, k + "=" + v + rest;
    assert s == k + ['='] + tail;
    IndexOfFirst(k, '=', tail);
    assert s[..|k|] == k && s[|k| + 1..] == tail;
    FirstPiece(v, rest);
    assert Pieces(s, '=') == [k] + Pieces(tail, '=');
  }

  lemma {:induction false} FirstPiece(v: string, rest: string)
    requires '=' !in v && (rest == "" || rest[0] == '=')
    ensures Pieces(v + rest, '=')[0] == v
  {
    var s := v + rest;
    if rest == "" {
      assert s == v;
      IndexOfAbsent(v, '=');
    } else {
      assert s == v + ['='] + rest[1..];
      IndexOfFirst(v, '=', rest[1..]);
      assert s[..|v|] == v;
    }
  }

  /** So parse_function cuts a value at an `=` sign in it, be it the padding of
      a base64 value. */
  lemma {:induction false} ValueCutAtEquals(path: string, k: string, v: string, rest: string)
    requires PlainPath(path) && '=' !in k && '=' !in v && (rest == "" || rest[0] == '=')
    requires var piece := k + "=" + v + rest; '/' !in piece && '&' !in piece
    ensures var target := path + "?" + (k + "=" + v + rest);
            && WellFormedQuery(target) && NameOf(target) == path
            && PairsOf(QueryPieces(target)) == [Parameter(k, v)]
  {
    var piece := k + "=" + v + rest;
    TargetSplits(path, piece);
    assert piece[|k|] == '=';
    assert Join([piece], '&') == piece;
    SplitOfJoin([piece], '&');
    PairStopsAtSecondEquals(k, v, rest);
  }

  /** A printed target without slashes in its pairs keeps its path; free of
      ampersands and equals signs too, the pairs read back. */
  lemma {:induction false} PairsReadBack(path: string, pairs: seq<Parameter>)
    requires PlainPath(path) && Without(pairs, '/') && Without(pairs, '&') && Without(pairs, '=')
    ensures var query, target := Join(Printed(pairs), '&'), PrintTarget(path, pairs);
            && '/' !in query && Split(query, '&') == Printed(pairs)
            && (forall p <- Split(query, '&') :: '=' in p)
            && NameOf(target) == path && QueryPieces(target) == Printed(pairs)
            && PairsOf(Printed(pairs)) == pairs
  {
    var strs := Printed(pairs);
    PrintedFree(pairs, '/');
    PrintedFree(pairs, '&');
    FreeJoin(strs, '&', '/');
    TargetSplits(path, Join(strs, '&'));
    PrintedHasEquals(pairs);
    SplitOfJoin(strs, '&');
    PairsRoundTrip(pairs);
  }

  /** A slash in the query moves the split of name and query. */
  lemma {:induction false} SlashInQueryMovesName(path: string, query: string)
    requires '/' in query
    ensures NameOf(path + "?" + query) != path
  {
    var target := path + "?" + query;
    var j :| 0 <= j < |query| && query[j] == '/';
    assert target[|path| + 1 + j] == '/';
    assert LastIndexOf(target, '/').value > |path|;
  }

  /** A pair that is read has no delimiter in its halves. */
  lemma {:induction false} ReadPairIsFree(p: string, c: char)
    requires '=' in p && (c == '=' || c !in p)
    ensures c !in PairOf(p).name && c !in PairOf(p).value
  {
    EqualsGivesTwo(p);
    JoinOfSplit(p, '=');
    var pieces := Split(p, '=');
    assert pieces[0] in pieces && pieces[1] in pieces;
    if c != '=' { FreeOfJoined(pieces, '=', c); }
  }

  lemma {:induction false} ReadPairsAreFree(pieces: seq<string>, c: char)
    requires forall p <- pieces :: '=' in p
    requires c == '=' || Free(pieces, c)
    ensures Without(PairsOf(pieces), c)
  {
    forall q | q in PairsOf(pieces) ensures c !in q.name && c !in q.value {
      var i :| 0 <= i < |pieces| && PairsOf(pieces)[i] == q;
      assert pieces[i] in pieces;
      ReadPairIsFree(pieces[i], c);
    }
  }

  lemma {:induction false} PrintedHolds(pairs: seq<Parameter>, c: char)
    requires Free(Printed(pairs), c)
    ensures Without(pairs, c)
  {
    forall p | p in pairs ensures c !in p.name && c !in p.value {
      var i :| 0 <= i < |pairs| && pairs[i] == p;
      assert Printed(pairs)[i] == p.name + "=" + p.value && Printed(pairs)[i] in Printed(pairs);
    }
  }

  /** On a printed target with a plain path the pairs can only be free of the
      three delimiters if parsing gives them back. */
  lemma {:induction false} ReadBackIsFree(path: string, pairs: seq<Parameter>)
    requires PlainPath(path)
    requires var target := PrintTarget(path, pairs);
             WellFormedQuery(target) && NameOf(target) == path && PairsOf(QueryPieces(target)) == pairs
    ensures Without(pairs, '/') && Without(pairs, '&') && Without(pairs, '=')
  {
    var target, query := PrintTarget(path, pairs), Join(Printed(pairs), '&');
    if '/' in query { SlashInQueryMovesName(path, query); }
    FreeOfJoined(Printed(pairs), '&', '/');
    PrintedHolds(pairs, '/');
    TargetSplits(path, query);
    JoinOfSplit(query, '&');
    ReadPairsAreFree(QueryPieces(target), '&');
    ReadPairsAreFree(QueryPieces(target), '=');
  }

  /** parse_function on a printed target gives back exactly the path and the
      pairs if and only if the path is plain and no key or value contains
      `/`, `&` or `=`, or there is neither path nor pair. Empty keys, empty
      values and the empty list are included. */
  lemma {:induction false} QueryRoundTrip(path: string, pairs: seq<Parameter>)
    ensures var target := PrintTarget(path, pairs);
            WellFormedQuery(target) && NameOf(target) == path && PairsOf(QueryPieces(target)) == pairs
            <==>
            || (path == "" && pairs == [])
            || (PlainPath(path) && Without(pairs, '/') && Without(pairs, '&') && Without(pairs, '='))
  {
    var target := PrintTarget(path, pairs);
    ParseThenPrint(target);
    if PlainPath(path) {
      if Without(pairs, '/') && Without(pairs, '&') && Without(pairs, '=') {
        PairsReadBack(path, pairs);
      } else if WellFormedQuery(target) && NameOf(target) == path && PairsOf(QueryPieces(target)) == pairs {
        ReadBackIsFree(path, pairs);
      }
    } else if path == "" && pairs == [] {
      assert target == "?";
    }
  }

  lemma {:induction false} PrintedHasEquals(pairs: seq<Parameter>)
    ensures forall s <- Printed(pairs) :: '=' in s
    ensures Printed(pairs) != [""]
  {
    var strs := Printed(pairs);
    forall i | 0 <= i < |pairs| ensures '=' in strs[i] {
      assert strs[i][|pairs[i].name|] == '=';
    }
    assert strs != [] ==> strs[0] != "";
  }

  lemma {:induction false} PairsRoundTrip(pairs: seq<Parameter>)
    requires forall s <- Printed(pairs) :: '=' in s
    ensures PairsOf(Printed(pairs)) == pairs <==> Without(pairs, '=')
  {
    var read := PairsOf(Printed(pairs));
    forall i | 0 <= i < |pairs|
      ensures read[i] == pairs[i] <==> '=' !in pairs[i].name && '=' !in pairs[i].value
    {
      PairRoundTrip(pairs[i]);
    }
    if Without(pairs, '=') {
      forall i | 0 <= i < |pairs| ensures read[i] == pairs[i] { assert pairs[i] in pairs; }
    }
  }

  // ------------------------------------------------------------- extraction

  function NamedValues(names: seq<string>, vals: seq<string>): (r: seq<Parameter>)
    requires |names| == |vals|
    ensures |r| == |names|
    ensures forall i :: 0 <= i < |r| ==> r[i] == Parameter(names[i], vals[i])
  {
    seq(|names|, i requires 0 <= i < |names| => Parameter(names[i], vals[i]))
  }

  ghost predicate Scannable(template: string, path: string) {
    exists offs: seq<nat> :: LeftmostAll(Unmatched(template), path, offs)
  }

  /** The parameters that a template captures from a path it can be scanned
      over: one per placeholder, the text between the leftmost pieces. A
      template of one piece or one that ends in a placeholder captures none. */
  ghost function Captured(template: string, path: string): (r: seq<Parameter>)
    requires Scannable(template, path)
  {
    var ps, names := Unmatched(template), Matched(template);
    var offs: seq<nat> :| LeftmostAll(ps, path, offs);
    LeftmostPlaces(ps, path, offs);
    if |ps| > 1 && |ps| - 1 == |names| then NamedValues(names, Gaps(ps, path, offs)[1..]) else []
  }

  /** Any leftmost placement serves, since there is only one. */
  lemma {:induction false} CapturedIs(template: string, path: string, offs: seq<nat>)
    requires LeftmostAll(Unmatched(template), path, offs)
    ensures Places(Unmatched(template), path, offs)
    ensures var ps, names := Unmatched(template), Matched(template);
            Captured(template, path) ==
            if |ps| > 1 && |ps| - 1 == |names| then NamedValues(names, Gaps(ps, path, offs)[1..]) else []
  {
    LeftmostPlaces(Unmatched(template), path, offs);
    forall o: seq<nat> | LeftmostAll(Unmatched(template), path, o) ensures o == offs {
      LeftmostUnique(Unmatched(template), path, o, offs);
    }
  }

  /** The (start, end) pairs of the first n pieces of a placement. */
  ghost predicate AreEndsTo(ends: seq<(int, int)>, ps: seq<string>, offs: seq<nat>, n: nat)
    requires n <= |ps| && n <= |offs|
  {
    |ends| == n && forall i :: 0 <= i < n ==> ends[i] == (offs[i], offs[i] + |ps[i]|)
  }

  /** The (start, end) pairs of a placement. */
  ghost predicate AreEnds(ends: seq<(int, int)>, ps: seq<string>, offs: seq<nat>) {
    |ps| == |offs| && AreEndsTo(ends, ps, offs, |ps|)
  }

  /** One turn of the accumulation: from the (start, end) offsets so far and the
      text not yet searched. A missed search gives -1, as the int conversion of
      npos does; None is the error of cutting past the end. */
  function Accumulate(ends: seq<(int, int)>, rest: string, piece: string): (r: Option<(seq<(int, int)>, string)>)
    ensures r.Some? ==> |r.value.0| == |ends| + 1 && r.value.0[..|ends|] == ends
    ensures r.Some? && (ends != [] ==> ends[|ends| - 1].1 >= 0) ==> r.value.0[|ends|].1 >= 0
  {
    var at := Find(rest, piece);
    var index := if at.Some? then at.value else -1;
    var base := if ends == [] then 0 else ends[|ends| - 1].1;
    var cut := index + |piece|;
    if cut > |rest| then None
    else Some((ends + [(base + index, base + cut)], rest[cut..]))
  }

  /** The accumulation over the first n pieces, for any path. */
  function Accumulated(names: seq<string>, path: string, n: nat): (r: Option<(seq<(int, int)>, string)>)
    requires n <= |names|
    ensures r.Some? ==> |r.value.0| == n && forall i :: 0 <= i < n ==> r.value.0[i].1 >= 0
  {
    if n == 0 then Some(([], path))
    else
      var before := Accumulated(names, path, n - 1);
      if before.None? then None
      else Accumulate(before.value.0, before.value.1, names[n - 1])
  }

  lemma {:induction false} AccumulatedStops(names: seq<string>, path: string, n: nat, m: nat)
    requires n <= m <= |names| && Accumulated(names, path, n).None?
    ensures Accumulated(names, path, m).None?
  {
    if n < m { AccumulatedStops(names, path, n, m - 1); }
  }

  /** After n turns the accumulation has the ends of the first n pieces and is
      left with the text behind them. */
  ghost predicate AccumulatesTo(ps: seq<string>, path: string, offs: seq<nat>, n: nat)
    requires n <= |offs| <= |ps|
  {
    && Start(ps, offs, n) <= |path|
    && Accumulated(ps, path, n).Some?
    && Accumulated(ps, path, n).value.1 == path[Start(ps, offs, n)..]
    && AreEndsTo(Accumulated(ps, path, n).value.0, ps, offs, n)
  }

  /** On a path that has a leftmost placement, the accumulation never misses
      and gives the ends of that placement. */
  lemma {:induction false} AccumulatedIsLeftmost(ps: seq<string>, path: string, offs: seq<nat>, n: nat)
    requires LeftmostAll(ps, path, offs) && n <= |ps|
    ensures AccumulatesTo(ps, path, offs, n)
  {
    if n > 0 {
      AccumulatedIsLeftmost(ps, path, offs, n - 1);
      FindInRest(ps, path, offs, n - 1);
      AccumulatedStep(ps, path, offs, n - 1);
    }
  }

  /** One turn that finds its piece where the placement has it. */
  lemma {:induction false} AccumulatedStep(ps: seq<string>, path: string, offs: seq<nat>, n: nat)
    requires n < |offs| <= |ps| && AccumulatesTo(ps, path, offs, n)
    requires Start(ps, offs, n) <= offs[n] && offs[n] + |ps[n]| <= |path|
    requires Find(path[Start(ps, offs, n)..], ps[n]) == Some(offs[n] - Start(ps, offs, n))
    ensures AccumulatesTo(ps, path, offs, n + 1)
  {
    var ends := Accumulated(ps, path, n).value.0;
    EndIsStart(ends, ps, offs, n);
    AccumulateFinds(ends, path, ps[n], Start(ps, offs, n), offs[n]);
    EndsSnoc(ends, ps, offs, n);
  }

  lemma {:induction false} EndIsStart(ends: seq<(int, int)>, ps: seq<string>, offs: seq<nat>, n: nat)
    requires n <= |offs| <= |ps| && AreEndsTo(ends, ps, offs, n)
    ensures Start(ps, offs, n) == if ends == [] then 0 else ends[|ends| - 1].1
  {
  }

  lemma {:induction false} EndsSnoc(ends: seq<(int, int)>, ps: seq<string>, offs: seq<nat>, n: nat)
    requires n < |offs| <= |ps| && AreEndsTo(ends, ps, offs, n)
    ensures AreEndsTo(ends + [(offs[n], offs[n] + |ps[n]|)], ps, offs, n + 1)
  {
  }

  /** One turn that finds its piece at offset `at` of the path, having searched
      up to `from`. */
  lemma {:induction false} AccumulateFinds(ends: seq<(int, int)>, path: string, piece: string, from: nat, at: nat)
    requires from == if ends == [] then 0 else ends[|ends| - 1].1
    requires from <= at && at + |piece| <= |path| && Find(path[from..], piece) == Some(at - from)
    ensures Accumulate(ends, path[from..], piece) == Some((ends + [(at, at + |piece|)], path[at + |piece|..]))
  {
    assert path[from..][at - from + |piece|..] == path[at + |piece|..];
  }

  lemma {:induction false} FindInRest(ps: seq<string>, path: string, offs: seq<nat>, i: nat)
    requires LeftmostAll(ps, path, offs) && i < |ps| && Start(ps, offs, i) <= |path|
    ensures var from := Start(ps, offs, i);
            from <= offs[i] && offs[i] + |ps[i]| <= |path| && Find(path[from..], ps[i]) == Some(offs[i] - from)
  {
    assert FirstAt(ps, path, offs, i);
    var from := Start(ps, offs, i);
    FirstInSuffix(path, ps[i], from, offs[i] - from);
    var r := Find(path[from..], ps[i]);
    assert FirstFrom(path[from..], ps[i], 0, offs[i] - from);
  }

  predicate NoMissAt(ends: seq<(int, int)>, i: nat)
    requires i < |ends|
  {
    (if i == 0 then 0 else ends[i - 1].1) <= ends[i].0
  }

  /** No piece was missed: each starts where the one before ends, or later. */
  predicate NoMiss(ends: seq<(int, int)>) {
    forall i: nat :: i < |ends| ==> NoMissAt(ends, i)
  }

  /** The other way round: an accumulation without a miss has found a leftmost
      placement of the pieces so far. */
  lemma {:induction false} NoMissIsLeftmost(ps: seq<string>, path: string, n: nat) returns (offs: seq<nat>)
    requires n <= |ps| && Accumulated(ps, path, n).Some? && NoMiss(Accumulated(ps, path, n).value.0)
    ensures Leftmost(ps, path, offs) && |offs| == n && Start(ps, offs, n) <= |path|
    ensures Accumulated(ps, path, n).value.1 == path[Start(ps, offs, n)..]
    ensures n > 0 ==> Accumulated(ps, path, n).value.0[n - 1].1 == Start(ps, offs, n)
  {
    offs := [];
    if n > 0 {
      var (ends, rest) := Accumulated(ps, path, n - 1).value;
      var all := Accumulated(ps, path, n).value.0;
      assert all[..n - 1] == ends;
      NoMissPrefix(all, n - 1);
      offs := NoMissIsLeftmost(ps, path, n - 1);
      var index := NoMissFinds(ends, rest, ps[n - 1]);
      ScanTurn(ps, path, offs, rest, index);
      offs := offs + [Start(ps, offs, n - 1) + index];
    }
  }

  /** One turn without a miss finds its piece. */
  lemma {:induction false} NoMissFinds(ends: seq<(int, int)>, rest: string, piece: string) returns (index: nat)
    requires Accumulate(ends, rest, piece).Some? && NoMiss(Accumulate(ends, rest, piece).value.0)
    ensures FirstFrom(rest, piece, 0, index)
    ensures var base := if ends == [] then 0 else ends[|ends| - 1].1;
            Accumulate(ends, rest, piece) ==
            Some((ends + [(base + index, base + index + |piece|)], rest[index + |piece|..]))
  {
    assert NoMissAt(Accumulate(ends, rest, piece).value.0, |ends|);
    index := Find(rest, piece).value;
  }

  lemma {:induction false} NoMissPrefix(ends: seq<(int, int)>, n: nat)
    requires NoMiss(ends) && n <= |ends|
    ensures NoMiss(ends[..n])
  {
    forall i: nat | i < n ensures NoMissAt(ends[..n], i) { assert NoMissAt(ends, i); }
  }

  lemma {:induction false} EndsMissNothing(ps: seq<string>, path: string, offs: seq<nat>, ends: seq<(int, int)>)
    requires Places(ps, path, offs) && AreEnds(ends, ps, offs)
    ensures NoMiss(ends)
  {
    forall i: nat | i < |ends| ensures NoMissAt(ends, i) { assert PlacedAt(ps, path, offs, i); }
  }

  lemma {:induction false} AccumulatedOfPlacements(ps: seq<string>, path: string)
    ensures forall offs: seq<nat> :: LeftmostAll(ps, path, offs) ==>
              var acc := Accumulated(ps, path, |ps|); acc.Some? && AreEnds(acc.value.0, ps, offs)
  {
    forall offs: seq<nat> | LeftmostAll(ps, path, offs)
      ensures Accumulated(ps, path, |ps|).Some?
      ensures AreEnds(Accumulated(ps, path, |ps|).value.0, ps, offs)
    {
      AccumulatedIsLeftmost(ps, path, offs, |ps|);
    }
  }

  /** The fold that turns the pieces into offsets: the accumulation above on
      every path, and the leftmost placement on every path that has one. */
  method EndIndices(names: seq<string>, path: string) returns (ends: seq<(int, int)>, thrown: bool)
    ensures thrown <==> Accumulated(names, path, |names|).None?
    ensures !thrown ==> ends == Accumulated(names, path, |names|).value.0
    ensures forall offs: seq<nat> :: LeftmostAll(names, path, offs) ==> !thrown && AreEnds(ends, names, offs)
  {
    ends, thrown := [], false;
    var functionName := path;
    for n := 0 to |names|
      invariant Accumulated(names, path, n) == Some((ends, functionName))
    {
      var v := names[n];
      var at := Find(functionName, v);
      var index := if at.Some? then at.value else -1;
      if index + |v| > |functionName| {
        AccumulatedStops(names, path, n + 1, |names|);
        AccumulatedOfPlacements(names, path);
        return ends, true;
      }
      functionName := functionName[index + |v|..];
      if n > 0 { index := ends[n - 1].1 + index; }
      ends := ends + [(index, index + |v|)];
    }
    AccumulatedOfPlacements(names, path);
  }

  /** std::string::substr with a count that may have wrapped around. */
  function Substr(s: string, pos: nat, count: int): string
    requires pos <= |s|
  {
    if count < 0 || pos + count > |s| then s[pos..] else s[pos..pos + count]
  }

  /** The text cut out between the end of one piece and the start of the next. */
  function Cut(ends: seq<(int, int)>, path: string, i: nat): string
    requires i + 1 < |ends| && 0 <= ends[i].1 <= |path|
  {
    Substr(path, ends[i].1, ends[i + 1].0 - ends[i].1)
  }

  /** All of them; None if one would start behind the end of the path. */
  function Cuts(ends: seq<(int, int)>, path: string): (r: Option<seq<string>>)
    requires |ends| >= 1 && forall i :: 0 <= i < |ends| ==> ends[i].1 >= 0
    ensures r.None? <==> exists i :: 0 <= i < |ends| - 1 && ends[i].1 > |path|
    ensures r.Some? ==> |r.value| == |ends| - 1
    ensures r.Some? ==> forall i {:trigger r.value[i]} :: 0 <= i < |ends| - 1 ==> r.value[i] == Cut(ends, path, i)
  {
    if exists i :: 0 <= i < |ends| - 1 && ends[i].1 > |path| then None
    else Some(seq(|ends| - 1, i requires 0 <= i < |ends| - 1 => Cut(ends, path, i)))
  }

  /** Between the ends of a placement that is what lies between its pieces. */
  lemma {:induction false} CutsAreGaps(ps: seq<string>, path: string, offs: seq<nat>, ends: seq<(int, int)>)
    requires Places(ps, path, offs) && AreEnds(ends, ps, offs) && |ends| >= 1
    ensures Cuts(ends, path) == Some(Gaps(ps, path, offs)[1..])
  {
    var gaps := Gaps(ps, path, offs);
    forall i | 0 <= i < |ends| - 1
      ensures ends[i].1 <= |path| && Cut(ends, path, i) == gaps[1..][i]
    {
      assert PlacedAt(ps, path, offs, i + 1);
      assert gaps[i + 1] == Gap(ps, path, offs, i + 1);
    }
    assert Cuts(ends, path).value == gaps[1..];
  }

  lemma {:induction false} CutsOfPlacements(ends: seq<(int, int)>, path: string)
    requires |ends| >= 1 && forall i :: 0 <= i < |ends| ==> ends[i].1 >= 0
    ensures forall ps: seq<string>, offs: seq<nat> :: Places(ps, path, offs) && AreEnds(ends, ps, offs) ==>
              Cuts(ends, path) == Some(Gaps(ps, path, offs)[1..])
  {
    forall ps: seq<string>, offs: seq<nat> | Places(ps, path, offs) && AreEnds(ends, ps, offs)
      ensures Cuts(ends, path) == Some(Gaps(ps, path, offs)[1..])
    {
      CutsAreGaps(ps, path, offs, ends);
    }
  }

  /** adjacent_difference and transform. */
  method CutBetween(ends: seq<(int, int)>, path: string) returns (params: seq<string>, thrown: bool)
    requires |ends| >= 1 && forall i :: 0 <= i < |ends| ==> ends[i].1 >= 0
    ensures thrown <==> Cuts(ends, path).None?
    ensures !thrown ==> params == Cuts(ends, path).value
    ensures forall ps: seq<string>, offs: seq<nat> :: Places(ps, path, offs) && AreEnds(ends, ps, offs) ==>
              !thrown && params == Gaps(ps, path, offs)[1..]
  {
    var range := seq(|ends|, i requires 0 <= i < |ends| =>
      if i == 0 then ends[0] else (ends[i - 1].1, ends[i].0));
    params, thrown := [], false;
    for n := 1 to |range|
      invariant |params| == n - 1
      invariant forall i :: 0 <= i < n - 1 ==> ends[i].1 <= |path|
      invariant forall i {:trigger params[i]} :: 0 <= i < n - 1 ==> params[i] == Cut(ends, path, i)
    {
      assert range[n] == (ends[n - 1].1, ends[n].0);
      if range[n].0 > |path| {
        CutsOfPlacements(ends, path);
        return [], true;
      }
      params := params + [Substr(path, range[n].0, range[n].1 - range[n].0)];
    }
    assert params == Cuts(ends, path).value;
    CutsOfPlacements(ends, path);
  }

  /** What extraction adds for any template and path; None is the error. */
  function Extraction(template: string, path: string): Option<seq<Parameter>> {
    var ps, names := Unmatched(template), Matched(template);
    if |ps| == 1 then Some([])
    else
      var acc := Accumulated(ps, path, |ps|);
      if acc.None? then None
      else
        var cuts := Cuts(acc.value.0, path);
        if cuts.None? then None
        else if |cuts.value| == |names| then Some(NamedValues(names, cuts.value))
        else Some([])
  }

  /** The accumulated ends stay inside the path: the last one and the text not
      yet searched make it up. */
  lemma {:induction false} AccumulatedWithin(names: seq<string>, path: string, n: nat)
    requires n <= |names| && Accumulated(names, path, n).Some?
    ensures var (ends, rest) := Accumulated(names, path, n).value;
            && (if n == 0 then 0 else ends[n - 1].1) + |rest| == |path|
            && forall i :: 0 <= i < n ==> ends[i].1 <= |path|
  {
    if n > 0 {
      AccumulatedWithin(names, path, n - 1);
      var (ends, rest) := Accumulated(names, path, n).value;
      assert ends[..n - 1] == Accumulated(names, path, n - 1).value.0;
      assert forall i :: 0 <= i < n - 1 ==> ends[i] == ends[..n - 1][i];
    }
  }

  /** Extraction fails exactly where the accumulation does: cutting between
      offsets that were accumulated never starts behind the end of the path. */
  lemma {:induction false} ExtractionFailsIff(template: string, path: string)
    ensures var ps := Unmatched(template);
            Extraction(template, path).None? <==> |ps| > 1 && Accumulated(ps, path, |ps|).None?
  {
    var ps := Unmatched(template);
    if Accumulated(ps, path, |ps|).Some? { AccumulatedWithin(ps, path, |ps|); }
  }

  /** Extraction without offsets: cut the path down piece by piece, keeping the
      text in front of each. A piece that is missing takes the whole rest as its
      text, and its own length less one off the rest; None if that is too much. */
  function CutTurn(texts: seq<string>, rest: string, piece: string): (r: Option<(seq<string>, string)>)
    ensures r.Some? ==> |r.value.0| == |texts| + 1
  {
    var at := Find(rest, piece);
    if at.Some? then Some((texts + [rest[..at.value]], rest[at.value + |piece|..]))
    else if |piece| - 1 <= |rest| then Some((texts + [rest], rest[|piece| - 1..]))
    else None
  }

  function CutDown(path: string, ps: seq<string>, n: nat): (r: Option<(seq<string>, string)>)
    requires n <= |ps|
    ensures r.Some? ==> |r.value.0| == n
  {
    if n == 0 then Some(([], path))
    else
      var before := CutDown(path, ps, n - 1);
      if before.None? then None else CutTurn(before.value.0, before.value.1, ps[n - 1])
  }

  /** The offsets so far, the rest of the path and the texts cut out belong
      together. */
  ghost predicate CutAlike(path: string, ends: seq<(int, int)>, rest: string, texts: seq<string>) {
    var base := if ends == [] then 0 else ends[|ends| - 1].1;
    && 0 <= base <= |path| && rest == path[base..] && |texts| == |ends|
    && forall i :: 0 <= i < |ends| ==> TextAlike(path, ends, texts, i)
  }

  ghost predicate BothCut(path: string, acc: Option<(seq<(int, int)>, string)>, down: Option<(seq<string>, string)>) {
    && (acc.None? <==> down.None?)
    && (acc.Some? ==> acc.value.1 == down.value.1 && CutAlike(path, acc.value.0, acc.value.1, down.value.0))
  }

  ghost predicate TextAlike(path: string, ends: seq<(int, int)>, texts: seq<string>, i: nat)
    requires i < |ends| == |texts|
  {
    0 <= ends[i].1 <= |path| && (i > 0 ==> 0 <= ends[i - 1].1 <= |path| && texts[i] == Cut(ends, path, i - 1))
  }

  /** The text from the end of one piece to the start of the next, the latter
      being one before the former if the piece is missing. */
  lemma {:induction false} SubstrOfRest(path: string, base: nat, at: Option<nat>)
    requires base <= |path| && (at.Some? ==> base + at.value <= |path|)
    ensures Substr(path, base, if at.Some? then at.value else -1) ==
            if at.Some? then path[base..][..at.value] else path[base..]
  {
  }

  lemma {:induction false} TextsSnoc(path: string, ends: seq<(int, int)>, texts: seq<string>,
                                     e: (int, int), text: string)
    requires |texts| == |ends| && forall i :: 0 <= i < |ends| ==> TextAlike(path, ends, texts, i)
    requires 0 <= e.1 <= |path|
    requires ends != [] ==> 0 <= ends[|ends| - 1].1 <= |path|
    requires ends != [] ==> text == Substr(path, ends[|ends| - 1].1, e.0 - ends[|ends| - 1].1)
    ensures forall i :: 0 <= i <= |ends| ==> TextAlike(path, ends + [e], texts + [text], i)
  {
    var ends', texts' := ends + [e], texts + [text];
    forall i | 0 <= i <= |ends| ensures TextAlike(path, ends', texts', i) {
      if i < |ends| { assert TextAlike(path, ends, texts, i); }
      if i > 0 { assert TextAlike(path, ends, texts, i - 1); }
    }
  }

  lemma {:induction false} TurnsAlike(path: string, ends: seq<(int, int)>, rest: string, texts: seq<string>,
                                      piece: string)
    requires CutAlike(path, ends, rest, texts)
    ensures BothCut(path, Accumulate(ends, rest, piece), CutTurn(texts, rest, piece))
  {
    var at, turn := Find(rest, piece), Accumulate(ends, rest, piece);
    var base := if ends == [] then 0 else ends[|ends| - 1].1;
    var index := if at.Some? then at.value else -1;
    if turn.Some? {
      var end := base + index + |piece|;
      assert turn.value == (ends + [(base + index, end)], rest[index + |piece|..]);
      assert rest[index + |piece|..] == path[end..];
      SubstrOfRest(path, base, at);
      TextsSnoc(path, ends, texts, (base + index, end), if at.Some? then rest[..at.value] else rest);
    }
  }

  lemma {:induction false} AccumulatedCuts(path: string, ps: seq<string>, n: nat)
    requires n <= |ps|
    ensures BothCut(path, Accumulated(ps, path, n), CutDown(path, ps, n))
  {
    if n == 0 {
      assert CutAlike(path, [], path, []);
    } else {
      AccumulatedCuts(path, ps, n - 1);
      var acc, down := Accumulated(ps, path, n - 1), CutDown(path, ps, n - 1);
      if acc.Some? { TurnsAlike(path, acc.value.0, acc.value.1, down.value.0, ps[n - 1]); }
    }
  }

  /** For every template and every path, matched or not, the offsets and the
      substring arithmetic come to cutting the path down: the texts in front of
      the pieces from the second on, under the names in order, if there are as
      many texts as names; an error exactly if a missing piece is too long. */
  lemma {:induction false} ExtractionByCutting(template: string, path: string)
    ensures var ps, names := Unmatched(template), Matched(template);
            var down := CutDown(path, ps, |ps|);
            Extraction(template, path) ==
            if |ps| == 1 then Some([])
            else if down.None? then None
            else if |ps| == |names| + 1 then Some(NamedValues(names, down.value.0[1..]))
            else Some([])
  {
    var ps := Unmatched(template);
    AccumulatedCuts(path, ps, |ps|);
    var acc := Accumulated(ps, path, |ps|);
    if |ps| > 1 && acc.Some? { CutsAreTexts(path, acc.value.0, acc.value.1, CutDown(path, ps, |ps|).value.0); }
  }

  lemma {:induction false} CutsAreTexts(path: string, ends: seq<(int, int)>, rest: string, texts: seq<string>)
    requires CutAlike(path, ends, rest, texts) && |ends| >= 1
    ensures forall i :: 0 <= i < |ends| ==> 0 <= ends[i].1 <= |path|
    ensures Cuts(ends, path) == Some(texts[1..])
  {
    forall i | 0 <= i < |ends| ensures 0 <= ends[i].1 <= |path| { assert TextAlike(path, ends, texts, i); }
    forall i | 0 <= i < |ends| - 1 ensures Cut(ends, path, i) == texts[1..][i] {
      assert TextAlike(path, ends, texts, i + 1);
    }
    assert Cuts(ends, path).value == texts[1..];
  }

  /** After a match extraction is the capture. */
  lemma {:induction false} ExtractionIsCapture(template: string, path: string)
    requires |Unmatched(template)| > 1 && Scannable(template, path)
    ensures Extraction(template, path) == Some(Captured(template, path))
  {
    var ps := Unmatched(template);
    var offs: seq<nat> :| LeftmostAll(ps, path, offs);
    CapturedIs(template, path, offs);
    AccumulatedIsLeftmost(ps, path, offs, |ps|);
    CutsAreGaps(ps, path, offs, Accumulated(ps, path, |ps|).value.0);
  }

  /** extract_params_from_path: append what is extracted behind the query
      parameters; on a path that the template can be scanned over, that is
      the captured values under the placeholder names. */
  method ExtractParamsFromPath(func: HttpFunction, handlerFuncName: string, pathFuncName: string)
    returns (thrown: bool)
    modifies func
    ensures func.name == old(func.name)
    ensures var extraction := Extraction(handlerFuncName, pathFuncName);
            && (thrown <==> extraction.None?)
            && func.params == old(func.params) + if thrown then [] else extraction.value
    ensures |Unmatched(handlerFuncName)| > 1 && Scannable(handlerFuncName, pathFuncName) ==>
              Extraction(handlerFuncName, pathFuncName) == Some(Captured(handlerFuncName, pathFuncName))
  {
    thrown := false;
    var surrounds := Unmatched(handlerFuncName);
    if |surrounds| > 1 {
      var endIndices, failed := EndIndices(surrounds, pathFuncName);
      if Scannable(handlerFuncName, pathFuncName) { ExtractionIsCapture(handlerFuncName, pathFuncName); }
      if failed { return true; }
      var params;
      params, thrown := CutBetween(endIndices, pathFuncName);
      if thrown { return; }
      var variableNames := Matched(handlerFuncName);
      if |params| == |variableNames| {
        AppendParams(func, variableNames, params);
      }
    }
  }

  /** The closing loop of the extraction. */
  method AppendParams(func: HttpFunction, names: seq<string>, params: seq<string>)
    requires |names| == |params|
    modifies func
    ensures func.name == old(func.name)
    ensures func.params == old(func.params) + NamedValues(names, params)
  {
    var i := 0;
    while i < |params|
      invariant 0 <= i <= |params|
      invariant func.name == old(func.name)
      invariant func.params == old(func.params) + NamedValues(names, params)[..i]
    {
      func.params := func.params + [Parameter(names[i], params[i])];
      i := i + 1;
    }
    assert NamedValues(names, params)[..i] == NamedValues(names, params);
  }
}
