/** The tokeniser of path templates (include/regex_range.hpp): the pattern
    \{(.*?)\} cuts a template into literal pieces and placeholder names. */
module RegexRange {
  import opened Text

  /** The characters that `.` does not match. */
  predicate IsLineTerminator(c: char) { c == '\n' || c == '\r' }

  /** The pattern matches s[i..j+1]: braces around a lazy, one-line name. */
  predicate MatchAt(s: string, i: nat, j: nat) {
    && i < j < |s| && s[i] == '{' && s[j] == '}'
    && forall k :: i < k < j ==> s[k] != '}' && !IsLineTerminator(s[k])
  }

  /** The closing brace for an opening one at i, looking from k on. */
  function Closing(s: string, i: nat, k: nat): (r: Option<nat>)
    requires i < k <= |s| && s[i] == '{'
    requires forall m :: i < m < k ==> s[m] != '}' && !IsLineTerminator(s[m])
    ensures r.Some? ==> MatchAt(s, i, r.value)
    ensures r.None? ==> forall j: nat :: !MatchAt(s, i, j)
    decreases |s| - k
  {
    if k == |s| || IsLineTerminator(s[k]) then None
    else if s[k] == '}' then Some(k)
    else Closing(s, i, k + 1)
  }

  /** The leftmost match that starts at `from` or later, as its two braces. */
  function NextMatch(s: string, from: nat): (r: Option<(nat, nat)>)
    requires from <= |s|
    ensures r.Some? ==> from <= r.value.0 && MatchAt(s, r.value.0, r.value.1)
    ensures r.Some? ==> forall i: nat, j: nat :: from <= i < r.value.0 ==> !MatchAt(s, i, j)
    ensures r.None? ==> forall i: nat, j: nat :: from <= i ==> !MatchAt(s, i, j)
    decreases |s| - from
  {
    if from == |s| then None
    else
      var close := if s[from] == '{' then Closing(s, from, from + 1) else None;
      if close.Some? then Some((from, close.value)) else NextMatch(s, from + 1)
  }

  /** One element of the regex iteration: the text since the previous match
      and the captured name. */
  datatype Match = Match(prefix: string, name: string) {
    /** val.str(): the matched text itself. */
    function Text(): string { Brace(name) }
  }

  datatype Scan = Scan(matches: seq<Match>, suffix: string)

  function Brace(name: string): string { "{" + name + "}" }

  function Braced(names: seq<string>): (r: seq<string>)
    ensures |r| == |names| && forall i :: 0 <= i < |r| ==> r[i] == Brace(names[i])
  {
    seq(|names|, i requires 0 <= i < |names| => Brace(names[i]))
  }

  /** The whole regex iteration over a template. */
  function ScanOf(s: string): Scan
    decreases |s|
  {
    var m := NextMatch(s, 0);
    if m.None? then Scan([], s)
    else
      var (i, j) := m.value;
      var rest := ScanOf(s[j + 1..]);
      Scan([Match(s[..i], s[i + 1..j])] + rest.matches, rest.suffix)
  }

  function Prefixes(ms: seq<Match>): (r: seq<string>)
    ensures |r| == |ms| && forall i :: 0 <= i < |r| ==> r[i] == ms[i].prefix
  {
    seq(|ms|, i requires 0 <= i < |ms| => ms[i].prefix)
  }

  function Names(ms: seq<Match>): (r: seq<string>)
    ensures |r| == |ms| && forall i :: 0 <= i < |r| ==> r[i] == ms[i].name
  {
    seq(|ms|, i requires 0 <= i < |ms| => ms[i].name)
  }

  /** get_matched: the placeholder names in order. */
  function Matched(t: string): seq<string> { Names(ScanOf(t).matches) }

  /** get_unmatched: the text before each placeholder, then the trailing text
      unless it is empty and something was matched. */
  function Unmatched(t: string): (r: seq<string>)
    ensures |r| == |Matched(t)| || |r| == |Matched(t)| + 1
    ensures |r| >= 1
  {
    var scan := ScanOf(t);
    Prefixes(scan.matches) +
    if scan.matches == [] || scan.suffix != "" then [scan.suffix] else []
  }

  /** The pieces with the omitted empty trailing literal put back, so that
      there is always one piece more than there are names. */
  function Literals(t: string): (r: seq<string>)
    ensures |r| == |Matched(t)| + 1
  {
    var scan := ScanOf(t);
    Prefixes(scan.matches) + [scan.suffix]
  }

  // ---------------------------------------------------------------- weaving

  /** gaps[0] ps[0] gaps[1] ps[1] ... up to the n-th piece. */
  function Woven(gaps: seq<string>, ps: seq<string>, n: nat): string
    requires n <= |gaps| && n <= |ps|
  {
    if n == 0 then "" else Woven(gaps, ps, n - 1) + gaps[n - 1] + ps[n - 1]
  }

  /** lits[0] vals[0] lits[1] ... vals[k-1] lits[k]. */
  function Fill(lits: seq<string>, vals: seq<string>): string
    requires |lits| == |vals| + 1
  {
    Woven([""] + vals, lits, |lits|)
  }

  lemma {:induction false} WovenCons(g: string, p: string, gaps: seq<string>, ps: seq<string>, n: nat)
    requires n <= |gaps| && n <= |ps|
    ensures Woven([g] + gaps, [p] + ps, n + 1) == g + p + Woven(gaps, ps, n)
  {
    var gs, qs := [g] + gaps, [p] + ps;
    if n == 0 {
      assert Woven(gs, qs, 1) == Woven(gs, qs, 0) + gs[0] + qs[0];
    } else {
      WovenCons(g, p, gaps, ps, n - 1);
      var w := Woven(gaps, ps, n - 1);
      calc {
        Woven(gs, qs, n + 1);
        Woven(gs, qs, n) + gs[n] + qs[n];
        (g + p + w) + gaps[n - 1] + ps[n - 1];
        g + p + (w + gaps[n - 1] + ps[n - 1]);
      }
    }
  }

  lemma {:induction false} WovenExt(gaps: seq<string>, ps: seq<string>, gaps': seq<string>, ps': seq<string>, n: nat)
    requires n <= |gaps| && n <= |ps| && n <= |gaps'| && n <= |ps'|
    requires forall i :: 0 <= i < n ==> gaps[i] == gaps'[i] && ps[i] == ps'[i]
    ensures Woven(gaps, ps, n) == Woven(gaps', ps', n)
  {
    if n > 0 { WovenExt(gaps, ps, gaps', ps', n - 1); }
  }

  lemma {:induction false} FillOne(l: string)
    ensures Fill([l], []) == l
  {
    var gaps := [""] + [];
    assert Woven(gaps, [l], 1) == Woven(gaps, [l], 0) + gaps[0] + [l][0];
  }

  lemma {:induction false} FillHead(lits: seq<string>, vals: seq<string>)
    requires |lits| == |vals| + 1
    ensures Fill(lits, vals) == lits[0] + Woven(vals, lits[1..], |vals|)
  {
    assert lits == [lits[0]] + lits[1..];
    WovenCons("", lits[0], vals, lits[1..], |vals|);
  }

  lemma {:induction false} WovenHead(v: string, lits: seq<string>, vals: seq<string>)
    requires |lits| == |vals| + 1
    ensures Woven([v] + vals, lits, |lits|) == v + Fill(lits, vals)
  {
    assert lits == [lits[0]] + lits[1..];
    WovenCons(v, lits[0], vals, lits[1..], |vals|);
    FillHead(lits, vals);
    Associates(v, lits[0], Woven(vals, lits[1..], |vals|));
  }

  lemma {:induction false} Associates(a: string, b: string, c: string)
    ensures (a + b) + c == a + (b + c)
  {
  }

  /** Putting a literal and a value in front of a filled template. */
  lemma {:induction false} FillCons(l: string, v: string, lits: seq<string>, vals: seq<string>)
    requires |lits| == |vals| + 1
    ensures Fill([l] + lits, [v] + vals) == l + v + Fill(lits, vals)
  {
    FillHead([l] + lits, [v] + vals);
    assert ([l] + lits)[1..] == lits;
    WovenHead(v, lits, vals);
    Associates(l, v, Fill(lits, vals));
  }

  lemma {:induction false} FillTwo(a: string, v: string, b: string)
    ensures Fill([a, b], [v]) == a + v + b
  {
    FillOne(b);
    assert [a, b] == [a] + [b] && [v] == [v] + [];
    FillCons(a, v, [b], []);
  }

  // ------------------------------------------------------------ round trips

  /** Tokenising loses nothing: the literals interleaved with the braced
      names are the template again, whatever the template. */
  lemma {:induction false} RebuildsTemplate(t: string)
    ensures Fill(Literals(t), Braced(Matched(t))) == t
    decreases |t|
  {
    var m := NextMatch(t, 0);
    if m.None? {
      FillOne(t);
      assert Literals(t) == [t] && Braced(Matched(t)) == [];
    } else {
      var (i, j) := m.value;
      RebuildsTemplate(t[j + 1..]);
      ScanUnfolds(t, i, j);
      RebuildStep(t, i, j, Literals(t[j + 1..]), Matched(t[j + 1..]));
    }
  }

  /** Putting the text before a match and the match itself back in front. */
  lemma {:induction false} RebuildStep(t: string, i: nat, j: nat, lits: seq<string>, names: seq<string>)
    requires i < j < |t| && MatchAt(t, i, j)
    requires |lits| == |names| + 1 && Fill(lits, Braced(names)) == t[j + 1..]
    ensures Fill([t[..i]] + lits, Braced([t[i + 1..j]] + names)) == t
  {
    FillBraceCons(t[..i], t[i + 1..j], lits, names);
    assert t == t[..i] + Brace(t[i + 1..j]) + t[j + 1..];
  }

  lemma {:induction false} FillBraceCons(l: string, n: string, lits: seq<string>, names: seq<string>)
    requires |lits| == |names| + 1
    ensures Fill([l] + lits, Braced([n] + names)) == l + Brace(n) + Fill(lits, Braced(names))
  {
    BracedCons(n, names);
    FillCons(l, Brace(n), lits, Braced(names));
  }

  /** The iteration reads off its first match and goes on behind it. */
  lemma {:induction false} ScanUnfolds(t: string, i: nat, j: nat)
    requires NextMatch(t, 0) == Some((i, j))
    ensures i < j < |t|
    ensures Literals(t) == [t[..i]] + Literals(t[j + 1..])
    ensures Matched(t) == [t[i + 1..j]] + Matched(t[j + 1..])
  {
    var rest := ScanOf(t[j + 1..]);
    var m := Match(t[..i], t[i + 1..j]);
    assert ScanOf(t) == Scan([m] + rest.matches, rest.suffix);
    PartsCons(m, rest.matches);
  }

  lemma {:induction false} PartsCons(m: Match, ms: seq<Match>)
    ensures Prefixes([m] + ms) == [m.prefix] + Prefixes(ms)
    ensures Names([m] + ms) == [m.name] + Names(ms)
  {
  }

  lemma {:induction false} BracedCons(n: string, names: seq<string>)
    ensures Braced([n] + names) == [Brace(n)] + Braced(names)
  {
  }

  predicate PlainLiteral(l: string) { '{' !in l }

  predicate PlainName(n: string) { '}' !in n && '\n' !in n && '\r' !in n }

  /** A line break between the braces makes them literal text. */
  lemma {:induction false} LineBreakHides(a: string, c: char, b: string)
    requires c == '\n' || c == '\r'
    requires '{' !in a && '}' !in a && '{' !in b
    ensures var t := "{" + a + [c] + b + "}";
            NextMatch(t, 0) == None && Matched(t) == [] && Unmatched(t) == [t]
  {
    var t := "{" + a + [c] + b + "}";
    assert t[1 + |a|] == c;
    forall i: nat, j: nat ensures !MatchAt(t, i, j) { NoMatchAcross(a, c, b, i, j); }
    assert NextMatch(t, 0) == None;
  }

  lemma {:induction false} NoMatchAcross(a: string, c: char, b: string, i: nat, j: nat)
    requires IsLineTerminator(c) && '{' !in a && '}' !in a && '{' !in b
    ensures !MatchAt("{" + a + [c] + b + "}", i, j)
  {
    var t := "{" + a + [c] + b + "}";
    assert t[1 + |a|] == c;
    assert forall k :: 1 <= k < 1 + |a| ==> t[k] == a[k - 1];
    assert forall k :: 2 + |a| <= k < 2 + |a| + |b| ==> t[k] == b[k - 2 - |a|];
    if MatchAt(t, i, j) {
      assert false;
    }
  }

  /** The first match of l{n}... is the placeholder written there. */
  lemma {:induction false} FirstPlaceholder(l: string, n: string, rest: string)
    requires PlainLiteral(l) && PlainName(n)
    ensures NextMatch(l + Brace(n) + rest, 0) == Some((|l|, |l| + 1 + |n|))
  {
    var s := l + Brace(n) + rest;
    assert s[|l|] == '{' && s[|l| + 1 + |n|] == '}';
    assert MatchAt(s, |l|, |l| + 1 + |n|) by {
      forall k | |l| < k < |l| + 1 + |n| ensures s[k] != '}' && !IsLineTerminator(s[k]) {
        assert s[k] == n[k - |l| - 1];
      }
    }
    assert forall i :: 0 <= i < |l| ==> s[i] == l[i];
    assert forall k :: |l| < k < |l| + 1 + |n| ==> s[k] == n[k - |l| - 1];
  }

  /** The iteration reads off that placeholder and goes on behind it. */
  lemma {:induction false} ScanStep(l: string, n: string, rest: string)
    requires PlainLiteral(l) && PlainName(n)
    ensures Literals(l + Brace(n) + rest) == [l] + Literals(rest)
    ensures Matched(l + Brace(n) + rest) == [n] + Matched(rest)
  {
    var t, i, j := l + Brace(n) + rest, |l|, |l| + 1 + |n|;
    FirstPlaceholder(l, n, rest);
    ScanUnfolds(t, i, j);
    assert t[j + 1..] == rest && t[..i] == l && t[i + 1..j] == n;
  }

  lemma {:induction false} RecoversPieces(lits: seq<string>, names: seq<string>)
    requires |lits| == |names| + 1
    requires forall l <- lits :: PlainLiteral(l)
    requires forall n <- names :: PlainName(n)
    ensures Literals(Fill(lits, Braced(names))) == lits
    ensures Matched(Fill(lits, Braced(names))) == names
    decreases |names|
  {
    if names == [] {
      var l := lits[0];
      FillOne(l);
      assert lits == [l] && Braced(names) == [];
      assert PlainLiteral(l);
      assert forall i :: 0 <= i < |l| ==> l[i] != '{';
    } else {
      var l, n, ls, ns := lits[0], names[0], lits[1..], names[1..];
      RecoversPieces(ls, ns);
      assert lits == [l] + ls && names == [n] + ns;
      assert l in lits && n in names;
      FillBraceCons(l, n, ls, ns);
      ScanStep(l, n, Fill(ls, Braced(ns)));
    }
  }

  /** get_unmatched drops exactly an empty trailing literal. */
  lemma {:induction false} UnmatchedAndLiterals(t: string)
    ensures var lits, m := Literals(t), |Matched(t)|;
            Unmatched(t) == if m > 0 && lits[m] == "" then lits[..m] else lits
  {
    var scan := ScanOf(t);
    assert Literals(t)[..|Matched(t)|] == Prefixes(scan.matches);
  }

  /** Tokenising a rendering of {-free literals and }-free one-line names
      recovers both lists. */
  lemma {:induction false} RecoversRendering(lits: seq<string>, names: seq<string>)
    requires |lits| == |names| + 1
    requires forall l <- lits :: PlainLiteral(l)
    requires forall n <- names :: PlainName(n)
    ensures Matched(Fill(lits, Braced(names))) == names
    ensures Unmatched(Fill(lits, Braced(names))) ==
            if names != [] && lits[|names|] == "" then lits[..|names|] else lits
  {
    RecoversPieces(lits, names);
    UnmatchedAndLiterals(Fill(lits, Braced(names)));
  }

  // ---------------------------------------------------------- match_indices

  /** Where the k-th placeholder starts in the template. */
  function PlaceholderOffset(t: string, k: nat): nat
    requires k < |Matched(t)|
  {
    |Woven([""] + Braced(Matched(t)), Literals(t), k + 1)|
  }

  /** From one placeholder to the next: over the braces of the one and the
      text before the other. */
  lemma {:induction false} OffsetStep(t: string, k: nat)
    requires k < |Matched(t)|
    ensures var ms := ScanOf(t).matches;
            PlaceholderOffset(t, k) ==
            (if k == 0 then 0 else PlaceholderOffset(t, k - 1) + |ms[k - 1].Text()|) + |ms[k].prefix|
  {
    var gaps, lits := [""] + Braced(Matched(t)), Literals(t);
    var ms := ScanOf(t).matches;
    assert Woven(gaps, lits, k + 1) == Woven(gaps, lits, k) + gaps[k] + lits[k];
    assert lits[k] == ms[k].prefix;
    if k > 0 { assert gaps[k] == Brace(Matched(t)[k - 1]) == ms[k - 1].Text(); }
  }

  /** The fold of match_indices: `last` is the length of the previous match. */
  method MatchIndices(t: string) returns (indices: seq<nat>)
    ensures |indices| == |Matched(t)|
    ensures forall k :: 0 <= k < |indices| ==> indices[k] == PlaceholderOffset(t, k)
  {
    var ms := ScanOf(t).matches;
    var last := 0;
    indices := [];
    for n := 0 to |ms|
      invariant |indices| == n
      invariant forall k :: 0 <= k < n ==> indices[k] == PlaceholderOffset(t, k)
      invariant n > 0 ==> last == |ms[n - 1].Text()|
    {
      OffsetStep(t, n);
      if |indices| > 0 {
        indices := indices + [indices[n - 1] + last + |ms[n].prefix|];
      } else {
        indices := indices + [|ms[n].prefix|];
      }
      last := |ms[n].Text()|;
    }
  }

  lemma {:induction false} WovenIsPrefix(gaps: seq<string>, ps: seq<string>, i: nat, n: nat)
    requires i <= n <= |gaps| && n <= |ps|
    ensures Woven(gaps, ps, i) <= Woven(gaps, ps, n)
    decreases n
  {
    if i < n { WovenIsPrefix(gaps, ps, i, n - 1); }
  }

  /** Every reported offset is where its braced name really stands, right
      after the literal that precedes it. */
  lemma {:induction false} OffsetsAreTrue(t: string, k: nat)
    requires k < |Matched(t)|
    ensures OccursAt(t, Brace(Matched(t)[k]), PlaceholderOffset(t, k))
    ensures PlaceholderOffset(t, k) >= |Literals(t)[k]|
    ensures OccursAt(t, Literals(t)[k], PlaceholderOffset(t, k) - |Literals(t)[k]|)
  {
    RebuildsTemplate(t);
    var gaps, lits := [""] + Braced(Matched(t)), Literals(t);
    PieceStands(gaps, lits, t, k);
    GapStands(gaps, lits, t, k + 1);
    assert gaps[k + 1] == Brace(Matched(t)[k]);
  }

  lemma {:induction false} PieceStands(gaps: seq<string>, ps: seq<string>, url: string, i: nat)
    requires |gaps| == |ps| && i < |ps| && Woven(gaps, ps, |ps|) <= url
    ensures |Woven(gaps, ps, i + 1)| >= |ps[i]|
    ensures OccursAt(url, ps[i], |Woven(gaps, ps, i + 1)| - |ps[i]|)
  {
    var rest := SplitAtGap(gaps, ps, url, i);
    OccursBehind(url, Woven(gaps, ps, i) + gaps[i], ps[i], rest);
  }

  lemma {:induction false} GapStands(gaps: seq<string>, ps: seq<string>, url: string, i: nat)
    requires |gaps| == |ps| && i < |ps| && Woven(gaps, ps, |ps|) <= url
    ensures OccursAt(url, gaps[i], |Woven(gaps, ps, i)|)
  {
    var rest := SplitAtGap(gaps, ps, url, i);
    OccursBehind(url, Woven(gaps, ps, i), gaps[i], ps[i] + rest);
  }

  lemma {:induction false} OccursBehind(s: string, a: string, p: string, rest: string)
    requires s == a + p + rest
    ensures OccursAt(s, p, |a|)
  {
  }

  /** A woven text, split at its i-th gap and piece. */
  lemma {:induction false} SplitAtGap(gaps: seq<string>, ps: seq<string>, url: string, i: nat) returns (rest: string)
    requires |gaps| == |ps| && i < |ps|
    requires Woven(gaps, ps, |ps|) <= url
    ensures url == Woven(gaps, ps, i) + gaps[i] + ps[i] + rest
    ensures url == Woven(gaps, ps, i) + gaps[i] + (ps[i] + rest)
  {
    var upto := Woven(gaps, ps, i + 1);
    WovenIsPrefix(gaps, ps, i + 1, |ps|);
    rest := url[|upto|..];
    assert url == upto + rest;
  }
}
