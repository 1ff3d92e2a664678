/** What a sequence of registrations does to a handler table: an invariant and
    stability for every run, whatever the key equality. Nothing below needs it
    to be symmetric, transitive or reflexive, which the template match is not. */
module Registry {
  import opened Text
  import opened FlatMaps

  datatype Registration<+K, +H> = Registration(key: K, handler: H)

  /** None is the null pointer that operator[] puts in a fresh slot. */
  type Table<+K, +H> = seq<Entry<K, Option<H>>>

  /** handlers[key] = handler. */
  ghost function Register<K, H>(m: Matcher<K>, t: Table<K, H>, r: Registration<K, H>): Table<K, H> {
    var s := Slot(m, t, r.key);
    if s < |t| then t[s := Entry(t[s].key, Some(r.handler))] else t + [Entry(r.key, Some(r.handler))]
  }

  /** The table after the first n registrations. */
  ghost function Run<K, H>(m: Matcher<K>, regs: seq<Registration<K, H>>, n: nat): Table<K, H>
    requires n <= |regs|
  {
    if n == 0 then [] else Register(m, Run(m, regs, n - 1), regs[n - 1])
  }

  /** The slot that the n-th registration writes. */
  ghost function Written<K, H>(m: Matcher<K>, regs: seq<Registration<K, H>>, n: nat): nat
    requires n < |regs|
  {
    Slot(m, Run(m, regs, n), regs[n].key)
  }

  /** The handler a request resolves to, None if there is none. */
  ghost function Lookup<K, H>(m: Matcher<K>, t: Table<K, H>, u: K): Option<H> {
    var s := Slot(m, t, u);
    if s < |t| then t[s].value else None
  }

  lemma {:induction false} RunExtends<K, H>(m: Matcher<K>, regs: seq<Registration<K, H>>,
                                            more: seq<Registration<K, H>>, n: nat)
    requires n <= |regs|
    ensures Run(m, regs + more, n) == Run(m, regs, n)
  {
    if n > 0 { RunExtends(m, regs, more, n - 1); }
  }

  // ------------------------------------------------------------ invariants

  /** No stored key matches a key stored after it. */
  ghost predicate Unshadowed<K, H>(m: Matcher<K>, t: Table<K, H>) {
    forall i, j :: 0 <= i < j < |t| ==> !m(t[i].key, t[j].key)
  }

  ghost predicate NoNull<K, H>(t: Table<K, H>) {
    forall i :: 0 <= i < |t| ==> t[i].value.Some?
  }

  /** t' has the keys of t in their places, perhaps with more behind them. */
  ghost predicate KeepsKeys<K, H>(t: Table<K, H>, t': Table<K, H>) {
    |t| <= |t'| && forall i :: 0 <= i < |t| ==> t'[i].key == t[i].key
  }

  lemma {:induction false} RegisterKeeps<K, H>(m: Matcher<K>, t: Table<K, H>, r: Registration<K, H>)
    ensures KeepsKeys(t, Register(m, t, r))
    ensures Slot(m, t, r.key) < |Register(m, t, r)|
    ensures NoNull(t) ==> NoNull(Register(m, t, r))
    ensures Unshadowed(m, t) ==> Unshadowed(m, Register(m, t, r))
  {
  }

  lemma {:induction false} RunInvariant<K, H>(m: Matcher<K>, regs: seq<Registration<K, H>>, n: nat)
    requires n <= |regs|
    ensures Unshadowed(m, Run(m, regs, n)) && NoNull(Run(m, regs, n))
  {
    if n > 0 {
      RunInvariant(m, regs, n - 1);
      RegisterKeeps(m, Run(m, regs, n - 1), regs[n - 1]);
    }
  }

  lemma {:induction false} KeysNeverMove<K, H>(m: Matcher<K>, regs: seq<Registration<K, H>>, n: nat, n': nat)
    requires n <= n' <= |regs|
    ensures KeepsKeys(Run(m, regs, n), Run(m, regs, n'))
    decreases n'
  {
    if n < n' {
      KeysNeverMove(m, regs, n, n' - 1);
      RegisterKeeps(m, Run(m, regs, n' - 1), regs[n' - 1]);
    }
  }

  lemma {:induction false} SlotKept<K, H>(m: Matcher<K>, t: Table<K, H>, t': Table<K, H>, u: K)
    requires KeepsKeys(t, t') && Slot(m, t, u) < |t|
    ensures Slot(m, t', u) == Slot(m, t, u)
  {
    SlotIs(m, t', u, Slot(m, t, u));
  }

  /** A URL that resolves to a slot resolves to that slot ever after. */
  lemma {:induction false} ResolutionIsStable<K, H>(m: Matcher<K>, regs: seq<Registration<K, H>>, n: nat, n': nat, u: K)
    requires n <= n' <= |regs| && Slot(m, Run(m, regs, n), u) < |Run(m, regs, n)|
    ensures Slot(m, Run(m, regs, n'), u) == Slot(m, Run(m, regs, n), u)
  {
    KeysNeverMove(m, regs, n, n');
    SlotKept(m, Run(m, regs, n), Run(m, regs, n'), u);
  }

  lemma {:induction false} WrittenStaysInside<K, H>(m: Matcher<K>, regs: seq<Registration<K, H>>, w: nat, n: nat)
    requires w < n <= |regs|
    ensures Written(m, regs, w) < |Run(m, regs, n)|
  {
    RegisterKeeps(m, Run(m, regs, w), regs[w]);
    KeysNeverMove(m, regs, w + 1, n);
  }

  /** Who put what into a slot: its key is that of the first registration
      that wrote it, its handler that of the last. */
  lemma {:induction false} SlotOrigin<K, H>(m: Matcher<K>, regs: seq<Registration<K, H>>, n: nat, i: nat)
    returns (first: nat, last: nat)
    requires n <= |regs| && i < |Run(m, regs, n)|
    ensures first <= last < n
    ensures Written(m, regs, first) == i == |Run(m, regs, first)| && Run(m, regs, n)[i].key == regs[first].key
    ensures Written(m, regs, last) == i && Run(m, regs, n)[i].value == Some(regs[last].handler)
    ensures forall w: nat :: w < first || last < w < n ==> Written(m, regs, w) != i
  {
    var t := Run(m, regs, n - 1);
    if i < |t| {
      first, last := SlotOrigin(m, regs, n - 1, i);
      if Written(m, regs, n - 1) == i { last := n - 1; }
    } else {
      first, last := n - 1, n - 1;
      forall w: nat | w < n - 1 ensures Written(m, regs, w) != i {
        WrittenStaysInside(m, regs, w, n - 1);
      }
    }
  }

  /** The key of the slot a registration writes is its own or matches it. */
  lemma {:induction false} WrittenKey<K, H>(m: Matcher<K>, regs: seq<Registration<K, H>>, w: nat, n: nat)
    requires w < n <= |regs|
    ensures Written(m, regs, w) < |Run(m, regs, n)|
    ensures var k := Run(m, regs, n)[Written(m, regs, w)].key; k == regs[w].key || m(k, regs[w].key)
  {
    WrittenStaysInside(m, regs, w, n);
    var s, t, t' := Written(m, regs, w), Run(m, regs, w), Run(m, regs, w + 1);
    assert t' == Register(m, t, regs[w]);
    KeysNeverMove(m, regs, w + 1, n);
    assert Run(m, regs, n)[s].key == t'[s].key;
  }

  /** The handler that answers a request is the one of the latest registration
      that resolved to the slot the request resolves to. */
  lemma {:induction false} LatestHandlerAnswers<K, H>(m: Matcher<K>, regs: seq<Registration<K, H>>, n: nat, u: K)
    returns (last: nat)
    requires n <= |regs| && Slot(m, Run(m, regs, n), u) < |Run(m, regs, n)|
    ensures last < n && Lookup(m, Run(m, regs, n), u) == Some(regs[last].handler)
    ensures Written(m, regs, last) == Slot(m, Run(m, regs, n), u)
    ensures forall w: nat :: last < w < n ==> Written(m, regs, w) != Slot(m, Run(m, regs, n), u)
  {
    var first;
    first, last := SlotOrigin(m, regs, n, Slot(m, Run(m, regs, n), u));
  }

  ghost predicate ApartAt<K, H>(m: Matcher<K>, regs: seq<Registration<K, H>>, i: nat, j: nat)
    requires i < |regs| && j < |regs|
  {
    m(regs[i].key, regs[j].key) ==> regs[i].key == regs[j].key
  }

  /** A registered key matches a later one only if it is the same. */
  ghost predicate KeysApart<K, H>(m: Matcher<K>, regs: seq<Registration<K, H>>) {
    forall i: nat, j: nat :: i < j < |regs| ==> ApartAt(m, regs, i, j)
  }

  /** Every slot then holds the key and the handler of one registration, the
      last one that wrote it. */
  lemma {:induction false} OwnKeyStored<K, H>(m: Matcher<K>, regs: seq<Registration<K, H>>, s: nat) returns (last: nat)
    requires KeysApart(m, regs) && s < |Run(m, regs, |regs|)|
    ensures last < |regs| && Run(m, regs, |regs|)[s] == Entry(regs[last].key, Some(regs[last].handler))
    ensures Written(m, regs, last) == s
    ensures forall w: nat :: last < w < |regs| ==> Written(m, regs, w) != s
  {
    var first;
    first, last := SlotOrigin(m, regs, |regs|, s);
    WrittenKey(m, regs, last, |regs|);
    assert first < last ==> ApartAt(m, regs, first, last);
  }

  /** Two registrations: one entry if the first key takes the second, else two. */
  lemma {:induction false} RunOfTwo<K, H>(m: Matcher<K>, r0: Registration<K, H>, r1: Registration<K, H>)
    ensures Run(m, [r0, r1], 2) ==
            if m(r0.key, r1.key) then [Entry(r0.key, Some(r1.handler))]
            else [Entry(r0.key, Some(r0.handler)), Entry(r1.key, Some(r1.handler))]
  {
    var t := Run(m, [r0, r1], 1);
    assert t == Register(m, Run(m, [r0, r1], 0), r0) == [Entry(r0.key, Some(r0.handler))];
    SlotIs(m, t, r1.key, if m(r0.key, r1.key) then 0 else 1);
    assert Run(m, [r0, r1], 2) == Register(m, t, r1);
  }

  // -------------------------------------------------------- re-registration

  /** Where a key finds itself after it has been registered. */
  lemma {:induction false} SlotAfterOwn<K, H>(m: Matcher<K>, t: Table<K, H>, key: K, h: H)
    ensures var once := Register(m, t, Registration(key, h));
            var s := Slot(m, t, key);
            && s < |once|
            && Slot(m, once, key) == if s < |t| || m(key, key) then s else |once|
  {
    var once := Register(m, t, Registration(key, h));
    var s := Slot(m, t, key);
    if s < |t| {
      SlotKept(m, t, once, key);
    } else {
      assert forall j :: 0 <= j < |t| ==> once[j].key == t[j].key;
      SlotIs(m, once, key, if m(key, key) then s else |once|);
    }
  }

  /** Registering a key again leaves the shape of the table alone exactly when
      an earlier key took it already or the key matches itself; otherwise each
      repetition grows the table. */
  lemma {:induction false} ReregistrationShape<K, H>(m: Matcher<K>, t: Table<K, H>, key: K, h: H, h': H)
    ensures var once := Register(m, t, Registration(key, h));
            var twice := Register(m, once, Registration(key, h'));
            |twice| == |once| <==> Slot(m, t, key) < |t| || m(key, key)
  {
    SlotAfterOwn(m, t, key, h);
  }

  /** When it does, only the handler in that one slot changes. */
  lemma {:induction false} ReregistrationReplaces<K, H>(m: Matcher<K>, t: Table<K, H>, key: K, h: H, h': H)
    requires Slot(m, t, key) < |t| || m(key, key)
    ensures var once := Register(m, t, Registration(key, h));
            var s := Slot(m, t, key);
            && s < |once|
            && Register(m, once, Registration(key, h')) == once[s := Entry(once[s].key, Some(h'))]
  {
    SlotAfterOwn(m, t, key, h);
  }

  // ---------------------------------------------------------------- removal

  /** Taking one slot out: requests that went elsewhere keep their entry, and
      those that went there go to the next entry whose key matches, if any. */
  lemma {:induction false} RemovedSlot<K, H>(m: Matcher<K>, t: Table<K, H>, s: nat, u: K)
    requires s < |t|
    ensures var t' := t[..s] + t[s + 1..];
            var i, i' := Slot(m, t, u), Slot(m, t', u);
            && (i < s ==> i' == i)
            && (i > s ==> i' == i - 1)
            && (i == s ==> i' == s + Slot(m, t[s + 1..], u))
            && (i != s ==> Lookup(m, t', u) == Lookup(m, t, u))
  {
    var i, before, after := Slot(m, t, u), t[..s], t[s + 1..];
    assert t == before + ([t[s]] + after);
    SlotAppend(m, before, [t[s]] + after, u);
    SlotAppend(m, before, after, u);
    SlotCons(m, t[s], after, u);
  }

  lemma {:induction false} SlotAppend<K, V>(m: Matcher<K>, a: seq<Entry<K, V>>, b: seq<Entry<K, V>>, u: K)
    ensures Slot(m, a + b, u) == if Slot(m, a, u) < |a| then Slot(m, a, u) else |a| + Slot(m, b, u)
    decreases |a|
  {
    if a == [] {
      assert a + b == b;
    } else {
      var e, rest := a[0], a[1..];
      assert a == [e] + rest && a + b == [e] + (rest + b);
      SlotAppend(m, rest, b, u);
      SlotCons(m, e, rest, u);
      SlotCons(m, e, rest + b, u);
    }
  }

  // -------------------------------------------------- refinement to a map

  /** The ordinary map: last write wins. */
  function RunMap<K(==), H>(regs: seq<Registration<K, H>>, n: nat): map<K, H>
    requires n <= |regs|
  {
    if n == 0 then map[] else RunMap(regs, n - 1)[regs[n - 1].key := regs[n - 1].handler]
  }

  /** On the keys registered, matching u is being u. */
  ghost predicate EqualityAt<K, H>(m: Matcher<K>, regs: seq<Registration<K, H>>, u: K) {
    forall i :: 0 <= i < |regs| ==> (m(regs[i].key, u) <==> regs[i].key == u)
  }

  lemma {:induction false} KeysAreRegistered<K, H>(m: Matcher<K>, regs: seq<Registration<K, H>>, n: nat, u: K)
    requires n <= |regs| && EqualityAt(m, regs, u)
    ensures forall e <- Run(m, regs, n) :: m(e.key, u) <==> e.key == u
  {
    if n > 0 { KeysAreRegistered(m, regs, n - 1, u); }
  }

  /** One registration, where keys match by equality. */
  lemma {:induction false} PlainStep<K, H>(m: Matcher<K>, t: Table<K, H>, r: Registration<K, H>, u: K)
    requires forall e <- t :: m(e.key, u) <==> e.key == u
    requires forall e <- t :: m(e.key, r.key) <==> e.key == r.key
    requires m(r.key, u) <==> r.key == u
    ensures var t' := Register(m, t, r);
            && (Slot(m, t', u) < |t'| <==> Slot(m, t, u) < |t| || r.key == u)
            && Lookup(m, t', u) == if r.key == u then Some(r.handler) else Lookup(m, t, u)
  {
    var t' := Register(m, t, r);
    var s := Slot(m, t, u);
    RegisterKeeps(m, t, r);
    if s < |t| {
      SlotKept(m, t, t', u);
      assert t[s] in t;
      assert Slot(m, t, r.key) < |t| ==> t[Slot(m, t, r.key)] in t;
    } else {
      assert Slot(m, t, r.key) < |t| ==> t[Slot(m, t, r.key)] in t;
      SlotIs(m, t', u, if r.key == u then s else |t'|);
    }
  }

  /** Where matching is equality, the table and the map agree on the request:
      found exactly on the map's domain, with the map's handler. */
  lemma {:induction false} TableIsMap<K, H>(m: Matcher<K>, regs: seq<Registration<K, H>>, n: nat, u: K)
    requires n <= |regs| && EqualityAt(m, regs, u)
    requires forall r <- regs :: EqualityAt(m, regs, r.key)
    ensures Slot(m, Run(m, regs, n), u) < |Run(m, regs, n)| <==> u in RunMap(regs, n)
    ensures u in RunMap(regs, n) ==> Lookup(m, Run(m, regs, n), u) == Some(RunMap(regs, n)[u])
  {
    if n > 0 {
      var t, r := Run(m, regs, n - 1), regs[n - 1];
      TableIsMap(m, regs, n - 1, u);
      KeysAreRegistered(m, regs, n - 1, r.key);
      KeysAreRegistered(m, regs, n - 1, u);
      PlainStep(m, t, r, u);
    }
  }

  // ------------------------------------------------- one table or several

  /** The part of a table whose keys satisfy p. */
  ghost function Part<K, H>(t: Table<K, H>, p: K -> bool): Table<K, H> {
    if t == [] then []
    else if p(t[0].key) then [t[0]] + Part(t[1..], p)
    else Part(t[1..], p)
  }

  lemma {:induction false} PartAppend<K, H>(t: Table<K, H>, e: Entry<K, Option<H>>, p: K -> bool)
    ensures Part(t + [e], p) == Part(t, p) + if p(e.key) then [e] else []
  {
    if t != [] {
      assert (t + [e])[1..] == t[1..] + [e];
      PartAppend(t[1..], e, p);
    }
  }

  lemma {:induction false} PartCons<K, H>(e: Entry<K, Option<H>>, t: Table<K, H>, p: K -> bool)
    ensures Part([e] + t, p) == if p(e.key) then [e] + Part(t, p) else Part(t, p)
  {
    assert ([e] + t)[1..] == t;
  }

  /** Keys that match lie on the same side of p. */
  ghost predicate Respects<K(!new)>(m: Matcher<K>, p: K -> bool) {
    forall k, u :: m(k, u) ==> (p(k) <==> p(u))
  }

  /** A request finds the same entry in its part as in the whole. */
  lemma {:induction false} SlotInPart<K(!new), H>(m: Matcher<K>, t: Table<K, H>, u: K, p: K -> bool)
    requires Respects(m, p) && p(u)
    ensures var f := Part(t, p);
            && (Slot(m, f, u) < |f| <==> Slot(m, t, u) < |t|)
            && (Slot(m, t, u) < |t| ==> f[Slot(m, f, u)] == t[Slot(m, t, u)])
  {
    if t != [] {
      var e, rest := t[0], t[1..];
      assert t == [e] + rest;
      SlotInPart(m, rest, u, p);
      SlotCons(m, e, rest, u);
      PartCons(e, rest, p);
      if p(e.key) {
        SlotCons(m, e, Part(rest, p), u);
      } else {
        assert !m(e.key, u);
      }
    }
  }

  ghost function Replaced<K, H>(m: Matcher<K>, t: Table<K, H>, u: K, v: Option<H>): Table<K, H> {
    var s := Slot(m, t, u);
    if s < |t| then t[s := Entry(t[s].key, v)] else t
  }

  lemma {:induction false} ReplacedCons<K, H>(m: Matcher<K>, e: Entry<K, Option<H>>, t: Table<K, H>, u: K, v: Option<H>)
    ensures Replaced(m, [e] + t, u, v) ==
            if m(e.key, u) then [Entry(e.key, v)] + t else [e] + Replaced(m, t, u, v)
  {
    SlotCons(m, e, t, u);
  }

  /** Replacing the value a request finds, in the whole and in a part. */
  lemma {:induction false} ReplacedInPart<K(!new), H>(m: Matcher<K>, t: Table<K, H>, u: K, v: Option<H>, p: K -> bool)
    requires Respects(m, p)
    ensures Part(Replaced(m, t, u, v), p) == if p(u) then Replaced(m, Part(t, p), u, v) else Part(t, p)
  {
    if t != [] {
      var e, rest := t[0], t[1..];
      var f := Part(rest, p);
      assert t == [e] + rest;
      ReplacedCons(m, e, rest, u, v);
      PartCons(e, rest, p);
      if p(e.key) { ReplacedCons(m, e, f, u, v); }
      if m(e.key, u) {
        assert p(e.key) == p(u);
        PartCons(Entry(e.key, v), rest, p);
      } else {
        ReplacedInPart(m, rest, u, v, p);
        PartCons(e, Replaced(m, rest, u, v), p);
      }
    }
  }

  /** Registering in the part of the key alone is registering in the whole. */
  lemma {:induction false} RegisterInPart<K(!new), H>(m: Matcher<K>, t: Table<K, H>,
                                                      r: Registration<K, H>, p: K -> bool)
    requires Respects(m, p)
    ensures Part(Register(m, t, r), p) == if p(r.key) then Register(m, Part(t, p), r) else Part(t, p)
  {
    if p(r.key) { SlotInPart(m, t, r.key, p); }
    if Slot(m, t, r.key) < |t| {
      ReplacedInPart(m, t, r.key, Some(r.handler), p);
    } else {
      PartAppend(t, Entry(r.key, Some(r.handler)), p);
    }
  }
}
