/** The reverse proxy's route table (reverseproxy/include/request_forwarder.hpp):
    built from a configuration, asked with wildcard, exact path, default in
    that order, over a hash map with no order of its own. */
module RequestForwarders {
  import opened Text

  /** One record of the configuration; the optional members may be absent. */
  datatype Route = Route(path: string, ip: string, port: string, kind: Option<string>, isDefault: Option<bool>)

  datatype Forwarder = Forwarder(kind: string, ip: string, port: string)

  /** What a lookup gives; OutOfRange is the error table.at raises. */
  datatype Found = Hit(forwarder: Forwarder) | Nothing | OutOfRange

  // ----------------------------------------------------------- configuration

  /** The names in the maker factory. */
  predicate Known(ssl: bool, kind: string) {
    || kind in {"file_forwarder", "generic_forwarder", "flexible_forwarder"}
    || (ssl && kind in {"secure_file_forwarder", "secure_generic_forwarder", "secure_flexible_forwarder"})
  }

  function KindOf(ssl: bool, r: Route): string {
    if r.kind.Some? then r.kind.value
    else if ssl then "secure_flexible_forwarder" else "flexible_forwarder"
  }

  function MakerOf(ssl: bool, r: Route): Forwarder { Forwarder(KindOf(ssl, r), r.ip, r.port) }

  /** The last of the first n records that is of a known kind and satisfies p. */
  function LastKnown(ssl: bool, config: seq<Route>, n: nat, p: Route -> bool): (r: Option<nat>)
    requires n <= |config|
    ensures r.Some? ==> r.value < n && Known(ssl, KindOf(ssl, config[r.value])) && p(config[r.value])
    ensures forall i: nat :: i < n && Known(ssl, KindOf(ssl, config[i])) && p(config[i]) ==> r.Some? && i <= r.value
  {
    if n == 0 then None
    else if Known(ssl, KindOf(ssl, config[n - 1])) && p(config[n - 1]) then Some(n - 1)
    else LastKnown(ssl, config, n - 1, p)
  }

  ghost function AtPath(path: string): Route -> bool { (r: Route) => r.path == path }

  ghost function Defaults(): Route -> bool { (r: Route) => r.isDefault == Some(true) }

  /** The forwarder the configuration means for a path, and by default. */
  ghost function Configured(ssl: bool, config: seq<Route>, path: string): Option<Forwarder> {
    var i := LastKnown(ssl, config, |config|, AtPath(path));
    if i.Some? then Some(MakerOf(ssl, config[i.value])) else None
  }

  ghost function ConfiguredDefault(ssl: bool, config: seq<Route>): Option<Forwarder> {
    var i := LastKnown(ssl, config, |config|, Defaults());
    if i.Some? then Some(MakerOf(ssl, config[i.value])) else None
  }

  /** The names that a record can be of. */
  const MAKERS := ["file_forwarder", "generic_forwarder", "flexible_forwarder"]
  const SECURE_MAKERS := ["secure_file_forwarder", "secure_generic_forwarder", "secure_flexible_forwarder"]

  /** A record that is skipped: it names a kind, and one without a maker. */
  predicate Skipped(ssl: bool, r: Route) {
    r.kind.Some? && r.kind.value !in MAKERS && !(ssl && r.kind.value in SECURE_MAKERS)
  }

  /** The forwarder has the record's address and its kind, the flexible kind of
      the build if the record names none. */
  predicate MadeFrom(ssl: bool, r: Route, f: Forwarder) {
    && f.ip == r.ip && f.port == r.port
    && f.kind == match r.kind
                 case Some(kind) => kind
                 case None => if ssl then "secure_flexible_forwarder" else "flexible_forwarder"
  }

  /** A path leads to a forwarder made from the record that comes last there,
      skipped ones aside; there is one unless all are skipped. */
  lemma {:induction false} ConfiguredFrom(ssl: bool, config: seq<Route>, path: string) returns (i: nat)
    ensures var found := Configured(ssl, config, path);
            && (found.Some? <==> i < |config|)
            && (found.Some? ==> config[i].path == path && !Skipped(ssl, config[i]))
            && (found.Some? ==> MadeFrom(ssl, config[i], found.value))
    ensures forall j: nat :: j < |config| && config[j].path == path && !Skipped(ssl, config[j]) ==>
              Configured(ssl, config, path).Some? && j <= i
  {
    var last := LastKnown(ssl, config, |config|, AtPath(path));
    i := if last.Some? then last.value else |config|;
    forall j: nat | j < |config| ensures Known(ssl, KindOf(ssl, config[j])) <==> !Skipped(ssl, config[j]) {
      KnownIsNotSkipped(ssl, config[j]);
    }
  }

  /** And so does the default, with the records marked as default. */
  lemma {:induction false} DefaultFrom(ssl: bool, config: seq<Route>) returns (i: nat)
    ensures var found := ConfiguredDefault(ssl, config);
            && (found.Some? <==> i < |config|)
            && (found.Some? ==> config[i].isDefault == Some(true) && !Skipped(ssl, config[i]))
            && (found.Some? ==> MadeFrom(ssl, config[i], found.value))
    ensures forall j: nat :: j < |config| && config[j].isDefault == Some(true) && !Skipped(ssl, config[j]) ==>
              ConfiguredDefault(ssl, config).Some? && j <= i
  {
    var last := LastKnown(ssl, config, |config|, Defaults());
    i := if last.Some? then last.value else |config|;
    forall j: nat | j < |config| ensures Known(ssl, KindOf(ssl, config[j])) <==> !Skipped(ssl, config[j]) {
      KnownIsNotSkipped(ssl, config[j]);
    }
  }

  lemma {:induction false} KnownIsNotSkipped(ssl: bool, r: Route)
    ensures Known(ssl, KindOf(ssl, r)) <==> !Skipped(ssl, r)
  {
  }

  /** The table after the first n records. */
  ghost predicate HoldsRoutes(table: map<string, Forwarder>, ssl: bool, config: seq<Route>, n: nat)
    requires n <= |config|
  {
    forall path :: HoldsRoute(table, ssl, config, n, path)
  }

  ghost predicate HoldsRoute(table: map<string, Forwarder>, ssl: bool, config: seq<Route>, n: nat, path: string)
    requires n <= |config|
  {
    var i := LastKnown(ssl, config, n, AtPath(path));
    if i.Some? then path in table && table[path] == MakerOf(ssl, config[i.value]) else path !in table
  }

  /** What one record does to the table and to the default. */
  ghost function WithRoute(table: map<string, Forwarder>, ssl: bool, r: Route): map<string, Forwarder> {
    if Known(ssl, KindOf(ssl, r)) then table[r.path := MakerOf(ssl, r)] else table
  }

  ghost function WithDefault(default: Option<Forwarder>, ssl: bool, r: Route): Option<Forwarder> {
    if Known(ssl, KindOf(ssl, r)) && r.isDefault == Some(true) then Some(MakerOf(ssl, r)) else default
  }

  lemma {:induction false} RouteAdded(table: map<string, Forwarder>, ssl: bool, config: seq<Route>, n: nat)
    requires n < |config| && HoldsRoutes(table, ssl, config, n)
    ensures HoldsRoutes(WithRoute(table, ssl, config[n]), ssl, config, n + 1)
  {
    var table', m := WithRoute(table, ssl, config[n]), n + 1;
    forall path ensures HoldsRoute(table', ssl, config, m, path) {
      assert HoldsRoute(table, ssl, config, n, path);
    }
  }

  ghost predicate HoldsDefault(default: Option<Forwarder>, ssl: bool, config: seq<Route>, n: nat)
    requires n <= |config|
  {
    var i := LastKnown(ssl, config, n, Defaults());
    default == if i.Some? then Some(MakerOf(ssl, config[i.value])) else None
  }

  lemma {:induction false} DefaultAdded(default: Option<Forwarder>, ssl: bool, config: seq<Route>, n: nat)
    requires n < |config| && HoldsDefault(default, ssl, config, n)
    ensures HoldsDefault(WithDefault(default, ssl, config[n]), ssl, config, n + 1)
  {
  }

  // ------------------------------------------------------------------ lookup

  predicate IsWildcard(key: string) { key != "" && key[|key| - 1] == '*' }

  function PrefixOf(key: string): string
    requires IsWildcard(key)
  {
    key[..|key| - 1]
  }

  predicate WildcardHits(key: string, path: string) { IsWildcard(key) && PrefixOf(key) <= path }

  /** A wildcard hits exactly what begins with its text, that text included. */
  lemma {:induction false} HitsIff(key: string, path: string)
    ensures WildcardHits(key, path) <==> exists i :: 0 <= i <= |path| && key == path[..i] + "*"
  {
    if WildcardHits(key, path) {
      var i := |key| - 1;
      assert path[..i] == PrefixOf(key) && key == PrefixOf(key) + "*";
    }
    if i :| 0 <= i <= |path| && key == path[..i] + "*" {
      assert PrefixOf(key) == path[..i];
    }
  }

  /** No wildcard made of the beginning of the path is in the table. */
  ghost predicate NoWildcard(table: map<string, Forwarder>, path: string) {
    forall i :: 0 <= i <= |path| ==> path[..i] + "*" !in table
  }

  lemma {:induction false} NoWildcardIff(table: map<string, Forwarder>, path: string)
    ensures NoWildcard(table, path) <==> forall k :: k in table ==> !WildcardHits(k, path)
  {
    forall k | k in table ensures WildcardHits(k, path) <==> exists i :: 0 <= i <= |path| && k == path[..i] + "*" {
      HitsIff(k, path);
    }
  }

  /** What a C string reader sees of a text: the part before the first NUL. */
  function CString(s: string): string {
    if s == "" || s[0] == '\0' then "" else [s[0]] + CString(s[1..])
  }

  lemma {:induction false} CStringWhole(s: string)
    requires '\0' !in s
    ensures CString(s) == s
  {
    if s != "" { CStringWhole(s[1..]); }
  }

  /** An order in which the hash map may hand out its keys. */
  ghost predicate IterationOrder(table: map<string, Forwarder>, order: seq<string>) {
    && (forall k :: k in order <==> k in table)
    && forall i, j :: 0 <= i < j < |order| ==> order[i] != order[j]
  }

  /** The first wildcard key in the order that hits. */
  function FirstHit(order: seq<string>, path: string): (i: nat)
    ensures i <= |order|
    ensures i < |order| ==> WildcardHits(order[i], path)
    ensures forall j :: 0 <= j < i ==> !WildcardHits(order[j], path)
  {
    if order == [] || WildcardHits(order[0], path) then 0 else 1 + FirstHit(order[1..], path)
  }

  /** What a wildcard key leads to: it is looked up again by its C string. */
  function Via(table: map<string, Forwarder>, key: string): Found {
    if CString(key) in table then Hit(table[CString(key)]) else OutOfRange
  }

  /** What the lookup means for a table: the wildcard found first, else the
      exact path, else the default. */
  function Answer(table: map<string, Forwarder>, default: Option<Forwarder>, order: seq<string>, path: string): Found {
    var i := FirstHit(order, path);
    if i < |order| then Via(table, order[i])
    else if path in table then Hit(table[path])
    else if default.Some? then Hit(default.value)
    else Nothing
  }

  class RequestForwarder {
    var table: map<string, Forwarder>
    var defaultForwarder: Option<Forwarder>

    constructor (ssl: bool, config: seq<Route>)
      ensures HoldsRoutes(table, ssl, config, |config|)
      ensures defaultForwarder == ConfiguredDefault(ssl, config)
    {
      table, defaultForwarder := map[], None;
      new;
      for n := 0 to |config|
        invariant HoldsRoutes(table, ssl, config, n)
        invariant HoldsDefault(defaultForwarder, ssl, config, n)
      {
        var r := config[n];
        RouteAdded(table, ssl, config, n);
        DefaultAdded(defaultForwarder, ssl, config, n);
        ghost var table', default' := WithRoute(table, ssl, r), WithDefault(defaultForwarder, ssl, r);
        var forwarderType := if r.kind.Some? then r.kind.value
                             else if ssl then "secure_flexible_forwarder" else "flexible_forwarder";
        if Known(ssl, forwarderType) {
          AddRoute(r.path, Forwarder(forwarderType, r.ip, r.port));
          if r.isDefault.Some? && r.isDefault.value {
            defaultForwarder := Some(Forwarder(forwarderType, r.ip, r.port));
          }
        }
        assert table == table' && defaultForwarder == default';
      }
    }

    method AddRoute(path: string, route: Forwarder)
      modifies this`table
      ensures table == old(table)[path := route]
    {
      table := table[path := route];
    }

    /** The range pipeline over the keys in their momentary order. */
    method WildCardMatch(path: string, order: seq<string>) returns (found: Found)
      requires IterationOrder(table, order)
      ensures found.Nothing? <==> NoWildcard(table, path)
      ensures var i := FirstHit(order, path);
              if found.Nothing? then i == |order| else i < |order| && found == Via(table, order[i])
    {
      NoWildcardIff(table, path);
      for i := 0 to |order|
        invariant forall j :: 0 <= j < i ==> !WildcardHits(order[j], path)
      {
        assert order[i] in order;
        if WildcardHits(order[i], path) {
          var key := CString(order[i]);
          if key !in table { return OutOfRange; }
          return Hit(table[key]);
        }
      }
      return Nothing;
    }

    method GetForwarder(path: string, order: seq<string>) returns (found: Found)
      requires IterationOrder(table, order)
      ensures found == Answer(table, defaultForwarder, order, path)
    {
      found := WildCardMatch(path, order);
      if !found.Nothing? { return; }
      if path in table { return Hit(table[path]); }
      if defaultForwarder.Some? { return Hit(defaultForwarder.value); }
      return Nothing;
    }
  }

  // -------------------------------------------------------- order independence

  /** All wildcards that hit the path lead to one and the same outcome. */
  ghost predicate OneAnswer(table: map<string, Forwarder>, path: string) {
    forall k, k' :: k in table && k' in table && WildcardHits(k, path) && WildcardHits(k', path) ==>
      Via(table, k) == Via(table, k')
  }

  lemma {:induction false} OrderStartingWith(table: map<string, Forwarder>, k: string) returns (order: seq<string>)
    requires k in table
    ensures IterationOrder(table, order) && order != [] && order[0] == k
  {
    order := SeqOf(table.Keys - {k});
    order := [k] + order;
  }

  lemma {:induction false} SeqOf(s: set<string>) returns (order: seq<string>)
    ensures forall k :: k in order <==> k in s
    ensures forall i, j :: 0 <= i < j < |order| ==> order[i] != order[j]
  {
    if s == {} {
      order := [];
    } else {
      var k :| k in s;
      order := SeqOf(s - {k});
      order := [k] + order;
    }
  }

  lemma {:induction false} AnswerOfHit(table: map<string, Forwarder>, default: Option<Forwarder>,
                                       order: seq<string>, path: string)
    requires IterationOrder(table, order)
    ensures var i := FirstHit(order, path);
            i < |order| ==> order[i] in table && Answer(table, default, order, path) == Via(table, order[i])
    ensures (exists k :: k in table && WildcardHits(k, path)) <==> FirstHit(order, path) < |order|
  {
    var i := FirstHit(order, path);
    if i < |order| { assert order[i] in order; }
    if k :| k in table && WildcardHits(k, path) {
      var j :| 0 <= j < |order| && order[j] == k;
    }
  }

  /** The answer for a path is the same for every order of the hash map. */
  ghost predicate OrderIndependent(table: map<string, Forwarder>, default: Option<Forwarder>, path: string) {
    forall a: seq<string>, b: seq<string> :: IterationOrder(table, a) && IterationOrder(table, b) ==>
      Answer(table, default, a, path) == Answer(table, default, b, path)
  }

  /** It is exactly when all wildcards that hit it lead to the same outcome. */
  lemma {:induction false} OrderIndependentIff(table: map<string, Forwarder>, default: Option<Forwarder>, path: string)
    ensures OrderIndependent(table, default, path) <==> OneAnswer(table, path)
  {
    if OneAnswer(table, path) {
      forall a: seq<string>, b: seq<string> | IterationOrder(table, a) && IterationOrder(table, b)
        ensures Answer(table, default, a, path) == Answer(table, default, b, path)
      {
        AnswerOfHit(table, default, a, path);
        AnswerOfHit(table, default, b, path);
      }
    } else {
      var k, k' :| k in table && k' in table && WildcardHits(k, path) && WildcardHits(k', path)
                   && Via(table, k) != Via(table, k');
      var a := OrderStartingWith(table, k);
      var b := OrderStartingWith(table, k');
      AnswerOfHit(table, default, a, path);
      AnswerOfHit(table, default, b, path);
      assert FirstHit(a, path) == 0 && FirstHit(b, path) == 0;
    }
  }

  /** A wildcard that hits a path without NUL has none itself, and leads to its
      own forwarder. */
  lemma {:induction false} PlainHit(table: map<string, Forwarder>, k: string, path: string)
    requires k in table && WildcardHits(k, path) && '\0' !in path
    ensures CString(k) == k && Via(table, k) == Hit(table[k])
  {
    assert k == PrefixOf(k) + "*" && PrefixOf(k) == path[..|PrefixOf(k)|];
    CStringWhole(k);
  }

  /** For paths without NUL: exactly when those wildcards share a forwarder. */
  lemma {:induction false} OrderIndependentPlain(table: map<string, Forwarder>, default: Option<Forwarder>,
                                                 path: string)
    requires '\0' !in path
    ensures OrderIndependent(table, default, path) <==>
            forall k, k' :: k in table && k' in table && WildcardHits(k, path) && WildcardHits(k', path) ==>
              table[k] == table[k']
  {
    OrderIndependentIff(table, default, path);
    forall k | k in table && WildcardHits(k, path) ensures Via(table, k) == Hit(table[k]) {
      PlainHit(table, k, path);
    }
  }

  /** No wildcard prefix is a prefix of another. */
  ghost predicate Incomparable(table: map<string, Forwarder>) {
    forall k, k' :: k in table && k' in table && IsWildcard(k) && IsWildcard(k') && PrefixOf(k) <= PrefixOf(k') ==>
      k == k'
  }

  /** At most one wildcard ever hits a path, whatever the path, exactly when
      the prefixes are pairwise incomparable. */
  lemma {:induction false} UniqueHitIff(table: map<string, Forwarder>)
    ensures Incomparable(table) <==>
            forall k, k', path: string ::
              k in table && k' in table && WildcardHits(k, path) && WildcardHits(k', path) ==> k == k'
  {
    if Incomparable(table) {
      forall k, k', path: string | k in table && k' in table && WildcardHits(k, path) && WildcardHits(k', path)
        ensures k == k'
      {
        if |PrefixOf(k)| <= |PrefixOf(k')| {
          assert PrefixOf(k) == path[..|PrefixOf(k)|] && PrefixOf(k') == path[..|PrefixOf(k')|];
          assert PrefixOf(k) <= PrefixOf(k');
        } else {
          assert PrefixOf(k') <= PrefixOf(k);
        }
      }
    } else {
      var k, k' :| k in table && k' in table && IsWildcard(k) && IsWildcard(k')
                   && PrefixOf(k) <= PrefixOf(k') && k != k';
      assert WildcardHits(k, PrefixOf(k')) && WildcardHits(k', PrefixOf(k'));
    }
  }

  /** Where a forwarder comes from: with incomparable wildcards the answer is,
      for every iteration order, the last known record of the C string of the
      one wildcard that hits, and an error if there is none; without a hit, the
      last known record of the exact path, else the last known default. */
  lemma {:induction false} RouteSelection(ssl: bool, config: seq<Route>, table: map<string, Forwarder>,
                                          default: Option<Forwarder>, order: seq<string>, path: string)
    requires HoldsRoutes(table, ssl, config, |config|)
    requires default == ConfiguredDefault(ssl, config)
    requires IterationOrder(table, order) && Incomparable(table)
    ensures forall k :: WildcardHits(k, path) && Configured(ssl, config, k).Some? ==>
              var seen := Configured(ssl, config, CString(k));
              Answer(table, default, order, path) == if seen.Some? then Hit(seen.value) else OutOfRange
    ensures (forall k :: WildcardHits(k, path) ==> Configured(ssl, config, k).None?) ==>
              Answer(table, default, order, path) ==
              var exact := Configured(ssl, config, path);
              if exact.Some? then Hit(exact.value) else if default.Some? then Hit(default.value) else Nothing
  {
    forall p: string
      ensures p in table <==> Configured(ssl, config, p).Some?
      ensures p in table ==> Configured(ssl, config, p) == Some(table[p])
    {
      assert HoldsRoute(table, ssl, config, |config|, p);
    }
    AnswerOfHit(table, default, order, path);
    UniqueHitIff(table);
  }

  /** For paths without NUL the record is that of the wildcard itself. */
  lemma {:induction false} RouteSelectionPlain(ssl: bool, config: seq<Route>, table: map<string, Forwarder>,
                                               default: Option<Forwarder>, order: seq<string>, path: string)
    requires HoldsRoutes(table, ssl, config, |config|)
    requires default == ConfiguredDefault(ssl, config)
    requires IterationOrder(table, order) && Incomparable(table) && '\0' !in path
    ensures forall k :: WildcardHits(k, path) && Configured(ssl, config, k).Some? ==>
              Answer(table, default, order, path) == Hit(Configured(ssl, config, k).value)
  {
    RouteSelection(ssl, config, table, default, order, path);
    forall k | WildcardHits(k, path) && Configured(ssl, config, k).Some?
      ensures Answer(table, default, order, path) == Hit(Configured(ssl, config, k).value)
    {
      assert HoldsRoute(table, ssl, config, |config|, k);
      PlainHit(table, k, path);
    }
  }

  /** A configured wildcard answers for every path that begins with its text,
      the bare text included, for every iteration order: with its own last
      record, or if it has a NUL with the last record of the part before it. */
  lemma {:induction false} WildcardAnswers(ssl: bool, config: seq<Route>, table: map<string, Forwarder>,
                                           default: Option<Forwarder>, order: seq<string>, p: string, rest: string)
    requires HoldsRoutes(table, ssl, config, |config|)
    requires default == ConfiguredDefault(ssl, config)
    requires IterationOrder(table, order) && Incomparable(table)
    requires Configured(ssl, config, p + "*").Some?
    ensures var seen := Configured(ssl, config, CString(p + "*"));
            Answer(table, default, order, p + rest) == if seen.Some? then Hit(seen.value) else OutOfRange
    ensures '\0' !in p ==> Answer(table, default, order, p + rest) == Hit(Configured(ssl, config, p + "*").value)
  {
    assert (p + rest)[..|p|] == p;
    HitsIff(p + "*", p + rest);
    RouteSelection(ssl, config, table, default, order, p + rest);
    if '\0' !in p { CStringWhole(p + "*"); }
  }

  /** The other way round: a path answers by its exact record, else by the
      default, if no beginning of it is configured as a wildcard. */
  lemma {:induction false} ExactAnswers(ssl: bool, config: seq<Route>, table: map<string, Forwarder>,
                                        default: Option<Forwarder>, order: seq<string>, path: string)
    requires HoldsRoutes(table, ssl, config, |config|)
    requires IterationOrder(table, order)
    requires forall i :: 0 <= i <= |path| ==> Configured(ssl, config, path[..i] + "*").None?
    ensures Answer(table, default, order, path) ==
            var exact := Configured(ssl, config, path);
            if exact.Some? then Hit(exact.value) else if default.Some? then Hit(default.value) else Nothing
  {
    forall i | 0 <= i <= |path| ensures path[..i] + "*" !in table {
      assert HoldsRoute(table, ssl, config, |config|, path[..i] + "*");
    }
    assert HoldsRoute(table, ssl, config, |config|, path);
    NoWildcardIff(table, path);
    AnswerOfHit(table, default, order, path);
  }

  /** Where a path leads whose one wildcard hits. */
  lemma {:induction false} OneHit(table: map<string, Forwarder>, default: Option<Forwarder>, order: seq<string>,
                                  path: string, k: string)
    requires IterationOrder(table, order) && k in table && WildcardHits(k, path)
    requires forall k' :: k' in table && WildcardHits(k', path) ==> k' == k
    ensures Answer(table, default, order, path) == Via(table, k)
  {
    AnswerOfHit(table, default, order, path);
  }

  /** A NUL in a wildcard path leads astray: the one wildcard hits, and the
      answer is the route of its first part, or an error if there is none. */
  lemma {:induction false} NulLeadsAstray(f: Forwarder, g: Forwarder, default: Option<Forwarder>, order: seq<string>)
    ensures WildcardHits("/a\0*", "/a\0x")
    ensures var table := map["/a\0*" := f, "/a" := g];
            && Incomparable(table)
            && (IterationOrder(table, order) ==> Answer(table, default, order, "/a\0x") == Hit(g))
    ensures var table := map["/a\0*" := f];
            && Incomparable(table)
            && (IterationOrder(table, order) ==> Answer(table, default, order, "/a\0x") == OutOfRange)
  {
    var k, path := "/a\0*", "/a\0x";
    var both, alone := map[k := f, "/a" := g], map[k := f];
    assert PrefixOf(k) == path[..3];
    assert !IsWildcard("/a") && "/a" != k;
    CStringCut("/a", "*");
    assert k == "/a" + "\0" + "*";
    assert Via(both, k) == Hit(g);
    assert Via(alone, k) == OutOfRange;
    if IterationOrder(both, order) { OneHit(both, default, order, path, k); }
    if IterationOrder(alone, order) { OneHit(alone, default, order, path, k); }
  }

  lemma {:induction false} CStringCut(a: string, rest: string)
    requires '\0' !in a
    ensures CString(a + "\0" + rest) == a
  {
    var s := a + "\0" + rest;
    if a != "" {
      CStringCut(a[1..], rest);
      assert s[1..] == a[1..] + "\0" + rest;
    }
  }
}
