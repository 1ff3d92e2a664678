/** split of include/utilities.hpp: the pieces between delimiters; an empty
    input has no pieces, a trailing delimiter gives a trailing empty piece. */
module Utilities {

  /** The offset of the first c in s, |s| if there is none. */
  function IndexOf(s: string, c: char): (i: nat)
    ensures i <= |s| && forall k :: 0 <= k < i ==> s[k] != c
    ensures i < |s| ==> s[i] == c
  {
    if s == "" || s[0] == c then 0 else 1 + IndexOf(s[1..], c)
  }

  lemma {:induction false} IndexOfFirst(a: string, c: char, rest: string)
    requires c !in a
    ensures IndexOf(a + [c] + rest, c) == |a|
  {
    var s := a + [c] + rest;
    assert forall k :: 0 <= k < |a| ==> s[k] == a[k] && s[k] in a;
    assert s[|a|] == c;
  }

  lemma {:induction false} IndexOfAbsent(s: string, c: char)
    ensures IndexOf(s, c) == |s| <==> c !in s
  {
  }

  /** The pieces of a text that is not empty, or follows a delimiter. */
  function Pieces(s: string, delim: char): (r: seq<string>)
    ensures |r| >= 1
    decreases |s|
  {
    var i := IndexOf(s, delim);
    if i == |s| then [s] else [s[..i]] + Pieces(s[i + 1..], delim)
  }

  function Split(input: string, delim: char): seq<string> {
    if input == "" then [] else Pieces(input, delim)
  }

  function Join(pieces: seq<string>, delim: char): string {
    if |pieces| == 0 then ""
    else if |pieces| == 1 then pieces[0]
    else pieces[0] + [delim] + Join(pieces[1..], delim)
  }

  ghost predicate Free(pieces: seq<string>, delim: char) {
    forall p <- pieces :: delim !in p
  }

  lemma {:induction false} JoinPieces(s: string, delim: char)
    ensures Join(Pieces(s, delim), delim) == s
    ensures Free(Pieces(s, delim), delim)
    decreases |s|
  {
    var i := IndexOf(s, delim);
    if i < |s| {
      JoinPieces(s[i + 1..], delim);
      var r := Pieces(s[i + 1..], delim);
      assert ([s[..i]] + r)[1..] == r;
      assert s == s[..i] + [delim] + s[i + 1..];
    }
  }

  /** Joining the pieces restores the input, and no piece has the delimiter. */
  lemma {:induction false} JoinOfSplit(s: string, delim: char)
    ensures Join(Split(s, delim), delim) == s
    ensures Free(Split(s, delim), delim)
  {
    if s != "" { JoinPieces(s, delim); }
  }

  /** What a joined text does not contain, none of its pieces contains. */
  lemma {:induction false} FreeOfJoined(pieces: seq<string>, delim: char, c: char)
    requires c !in Join(pieces, delim)
    ensures Free(pieces, c)
  {
    if |pieces| > 1 {
      FreeOfJoined(pieces[1..], delim, c);
      assert pieces == [pieces[0]] + pieces[1..];
    }
  }

  lemma {:induction false} PiecesOfJoin(pieces: seq<string>, delim: char)
    requires |pieces| >= 1 && Free(pieces, delim)
    ensures Pieces(Join(pieces, delim), delim) == pieces
    decreases |pieces|
  {
    var p, s := pieces[0], Join(pieces, delim);
    assert p in pieces;
    if |pieces| == 1 {
      IndexOfAbsent(p, delim);
      assert pieces == [p];
    } else {
      var rest := pieces[1..];
      PiecesOfJoin(rest, delim);
      IndexOfFirst(p, delim, Join(rest, delim));
      assert s[..|p|] == p && s[|p| + 1..] == Join(rest, delim);
      assert pieces == [p] + rest;
    }
  }

  /** A list of delimiter-free pieces survives join then split, unless it is
      the one list that prints like the empty one. */
  lemma {:induction false} SplitOfJoin(pieces: seq<string>, delim: char)
    requires Free(pieces, delim)
    ensures Split(Join(pieces, delim), delim) == pieces <==> pieces != [""]
  {
    if pieces == [""] {
      assert Join(pieces, delim) == "";
    } else if |pieces| >= 1 {
      PiecesOfJoin(pieces, delim);
    }
  }

  /** Which lists split can return at all. */
  lemma {:induction false} SplitImage(pieces: seq<string>, delim: char)
    ensures (exists s: string :: Split(s, delim) == pieces) <==> Free(pieces, delim) && pieces != [""]
  {
    if s: string :| Split(s, delim) == pieces {
      JoinOfSplit(s, delim);
    }
    if Free(pieces, delim) && pieces != [""] {
      SplitOfJoin(pieces, delim);
      assert Split(Join(pieces, delim), delim) == pieces;
    }
  }
}
