/** The base64 file body (include/base64_file_body.hpp): the size it promises,
    and the writer that encodes the file one buffer at a time, measured
    against the encoding of the whole file (section 4 of RFC 4648). */
module Base64FileBody {
  import opened Text

  type Byte = b: int | 0 <= b < 256
  type Sextet = x: int | 0 <= x < 64

  // ------------------------------------------------------------ the encoding

  /** Table 1 of RFC 4648. */
  function Symbol(x: Sextet): char {
    if x < 26 then 'A' + x as char
    else if x < 52 then 'a' + (x - 26) as char
    else if x < 62 then '0' + (x - 52) as char
    else if x == 62 then '+'
    else '/'
  }

  function ValueOf(c: char): Option<Sextet> {
    if 'A' <= c <= 'Z' then Some((c - 'A') as int)
    else if 'a' <= c <= 'z' then Some((c - 'a') as int + 26)
    else if '0' <= c <= '9' then Some((c - '0') as int + 52)
    else if c == '+' then Some(62)
    else if c == '/' then Some(63)
    else None
  }

  /** One quantum: three bytes, or the one or two that end the input. */
  function Quantum(s: seq<Byte>): (r: string)
    requires 1 <= |s| <= 3
    ensures |r| == 4
  {
    if |s| == 1 then
      [Symbol(s[0] / 4), Symbol(s[0] % 4 * 16), '=', '=']
    else if |s| == 2 then
      [Symbol(s[0] / 4), Symbol(s[0] % 4 * 16 + s[1] / 16), Symbol(s[1] % 16 * 4), '=']
    else
      [Symbol(s[0] / 4), Symbol(s[0] % 4 * 16 + s[1] / 16), Symbol(s[1] % 16 * 4 + s[2] / 64), Symbol(s[2] % 64)]
  }

  function Encode(s: seq<Byte>): string
    decreases |s|
  {
    if s == [] then ""
    else if |s| <= 3 then Quantum(s)
    else Quantum(s[..3]) + Encode(s[3..])
  }

  function DecodeQuantum(r: string): Option<seq<Byte>>
    requires |r| == 4
  {
    var a, b, c, d := ValueOf(r[0]), ValueOf(r[1]), ValueOf(r[2]), ValueOf(r[3]);
    if a.None? || b.None? then None
    else
      var b0 := a.value * 4 + b.value / 16;
      if r[2..] == "==" then Some([b0])
      else if c.None? then None
      else
        var b1 := b.value % 16 * 16 + c.value / 4;
        if r[3] == '=' then Some([b0, b1])
        else if d.None? then None
        else Some([b0, b1, c.value % 4 * 64 + d.value])
  }

  function Decode(r: string): Option<seq<Byte>>
    decreases |r|
  {
    if r == "" then Some([])
    else if |r| < 4 then None
    else
      var head, rest := DecodeQuantum(r[..4]), Decode(r[4..]);
      if head.None? || rest.None? then None else Some(head.value + rest.value)
  }

  lemma {:induction false} SymbolValue(x: Sextet)
    ensures ValueOf(Symbol(x)) == Some(x) && Symbol(x) != '='
  {
  }

  /** Bits cut off one sextet and carried into the next come together again. */
  lemma {:induction false} Reassembles(x: Byte, y: Byte)
    ensures x / 4 * 4 + (x % 4 * 16 + y / 16) / 16 == x
    ensures (x % 4 * 16 + y / 16) % 16 == y / 16
    ensures y / 16 * 16 + (y % 16 * 4 + x / 64) / 4 == y
    ensures (y % 16 * 4 + x / 64) % 4 * 64 + x % 64 == x
  {
  }

  lemma {:induction false} QuantumOfOne(a: Byte)
    ensures DecodeQuantum(Quantum([a])) == Some([a])
  {
    var r := Quantum([a]);
    SymbolValue(a / 4);
    SymbolValue(a % 4 * 16);
    Reassembles(a, 0);
    assert r[2..] == "==";
  }

  lemma {:induction false} QuantumOfTwo(a: Byte, b: Byte)
    ensures DecodeQuantum(Quantum([a, b])) == Some([a, b])
  {
    var r := Quantum([a, b]);
    SymbolValue(a / 4);
    SymbolValue(a % 4 * 16 + b / 16);
    SymbolValue(b % 16 * 4);
    Reassembles(a, b);
    Reassembles(0, b);
    assert r[2..][0] == r[2] != '=';
  }

  lemma {:induction false} QuantumOfThree(a: Byte, b: Byte, c: Byte)
    ensures DecodeQuantum(Quantum([a, b, c])) == Some([a, b, c])
  {
    var r := Quantum([a, b, c]);
    SymbolValue(a / 4);
    SymbolValue(a % 4 * 16 + b / 16);
    SymbolValue(b % 16 * 4 + c / 64);
    SymbolValue(c % 64);
    Reassembles(a, b);
    Reassembles(c, b);
    assert r[2..][0] == r[2] != '=' && r[3] != '=';
    assert ValueOf(r[2]) == Some(b % 16 * 4 + c / 64) && ValueOf(r[3]) == Some(c % 64);
  }

  lemma {:induction false} QuantumRoundTrip(s: seq<Byte>)
    requires 1 <= |s| <= 3
    ensures DecodeQuantum(Quantum(s)) == Some(s)
  {
    if |s| == 1 {
      QuantumOfOne(s[0]);
      assert s == [s[0]];
    } else if |s| == 2 {
      QuantumOfTwo(s[0], s[1]);
      assert s == [s[0], s[1]];
    } else {
      QuantumOfThree(s[0], s[1], s[2]);
      assert s == [s[0], s[1], s[2]];
    }
  }

  /** Decoding the encoding gives the bytes back. */
  lemma {:induction false} DecodeOfEncode(s: seq<Byte>)
    ensures Decode(Encode(s)) == Some(s)
    decreases |s|
  {
    if s != [] {
      var head := if |s| <= 3 then s else s[..3];
      var rest := s[|head|..];
      QuantumRoundTrip(head);
      DecodeOfEncode(rest);
      var r := Encode(s);
      assert r == Quantum(head) + Encode(rest);
      assert r[..4] == Quantum(head) && r[4..] == Encode(rest);
      assert s == head + rest;
    }
  }

  function Quanta(n: nat): nat { (n + 2) / 3 }

  lemma {:induction false} EncodedLength(s: seq<Byte>)
    ensures |Encode(s)| == 4 * Quanta(|s|)
    decreases |s|
  {
    if |s| > 3 {
      var head, rest := s[..3], s[3..];
      EncodedLength(rest);
      assert s == head + rest;
      EncodeStep(head, rest);
      QuantaStep(|s|);
    }
  }

  lemma {:induction false} QuantaStep(n: nat)
    requires n >= 3
    ensures Quanta(n) == 1 + Quanta(n - 3)
  {
  }

  /** Encoding goes quantum by quantum, so inputs may be cut at any multiple
      of three bytes. */
  lemma {:induction false} EncodeAppend(a: seq<Byte>, b: seq<Byte>)
    requires |a| % 3 == 0
    ensures Encode(a + b) == Encode(a) + Encode(b)
    decreases |a|
  {
    if a == [] {
      assert a + b == b;
    } else {
      var head, rest := a[..3], a[3..];
      assert a == head + rest && a + b == head + (rest + b);
      EncodeAppend(rest, b);
      EncodeStep(head, rest);
      EncodeStep(head, rest + b);
      Assoc(Quantum(head), Encode(rest), Encode(b));
    }
  }

  lemma {:induction false} Assoc(a: string, b: string, c: string)
    ensures a + b + c == a + (b + c)
  {
  }

  lemma {:induction false} EncodeStep(head: seq<Byte>, rest: seq<Byte>)
    requires |head| == 3
    ensures Encode(head + rest) == Quantum(head) + Encode(rest)
  {
    if rest == [] {
      assert head + rest == head;
    } else {
      assert (head + rest)[..3] == head && (head + rest)[3..] == rest;
    }
  }

  // --------------------------------------------------- what an encoding is

  const UPPER := "ABCDEFGHIJKLMNOPQRSTUVWXYZ"
  const LOWER := "abcdefghijklmnopqrstuvwxyz"
  const DIGITS := "0123456789"
  const ALPHABET := UPPER + LOWER + DIGITS + "+/"

  lemma {:induction false} UpperAt(x: nat)
    ensures |UPPER| == 26 && (x < 26 ==> UPPER[x] == 'A' + x as char)
  {
  }

  lemma {:induction false} LowerAt(x: nat)
    ensures |LOWER| == 26 && (x < 26 ==> LOWER[x] == 'a' + x as char)
  {
  }

  lemma {:induction false} DigitAt(x: nat)
    ensures |DIGITS| == 10 && (x < 10 ==> DIGITS[x] == '0' + x as char)
  {
  }

  /** The symbols are those of the alphabet, in its order. */
  lemma {:induction false} SymbolsAreAlphabet(x: Sextet)
    ensures |ALPHABET| == 64 && Symbol(x) == ALPHABET[x]
  {
    UpperAt(x);
    LowerAt(if x >= 26 then x - 26 else x);
    DigitAt(if x >= 52 then x - 52 else x);
  }

  /** A character has a value exactly if it is in the alphabet: its place. */
  lemma {:induction false} ValueIsPlace(c: char, x: Sextet)
    ensures ValueOf(c) == Some(x) <==> c == ALPHABET[x]
  {
    SymbolsAreAlphabet(x);
  }

  /** The k-th byte, a missing one read as zero. */
  function At(s: seq<Byte>, k: nat): Byte { if k < |s| then s[k] else 0 }

  /** The value of a symbol, padding read as zero. */
  function Value(c: char): Sextet {
    var v := ValueOf(c);
    if v.Some? then v.value else 0
  }

  /** The 24 bits of the q-th quantum of the bytes, and of the text. */
  function BytesAt(s: seq<Byte>, q: nat): int {
    At(s, 3 * q) * 65536 + At(s, 3 * q + 1) * 256 + At(s, 3 * q + 2)
  }

  function SymbolsAt(r: string, q: nat): int
    requires 4 * q + 4 <= |r|
  {
    Value(r[4 * q]) * 262144 + Value(r[4 * q + 1]) * 4096 + Value(r[4 * q + 2]) * 64 + Value(r[4 * q + 3])
  }

  /** Section 4 of RFC 4648 without the procedure: whole quanta, padding for
      the missing bytes alone and at the end alone, symbols of the alphabet
      elsewhere, and the same bits quantum by quantum, with zeros for what is
      missing. */
  ghost predicate Represents(r: string, s: seq<Byte>) {
    && |r| == 4 * Quanta(|s|)
    && (forall j :: 0 <= j < |r| ==> PlacedRight(r, |s|, j))
    && forall q: nat :: q < Quanta(|s|) ==> SymbolsAt(r, q) == BytesAt(s, q)
  }

  predicate PlacedRight(r: string, n: nat, j: nat)
    requires j < |r|
  {
    if j >= |r| - Pad(n) then r[j] == '=' else exists x: Sextet :: r[j] == Symbol(x)
  }

  /** The number of padding characters a chunk of this length gets. */
  function Pad(n: nat): nat { (3 - n % 3) % 3 }

  lemma {:induction false} SymbolPlaced(x: Sextet)
    ensures Value(Symbol(x)) == x && Symbol(x) != '='
  {
    SymbolValue(x);
  }

  lemma {:induction false} QuantumBits(s: seq<Byte>)
    requires 1 <= |s| <= 3
    ensures SymbolsAt(Quantum(s), 0) == BytesAt(s, 0)
  {
    SymbolPlaced(s[0] / 4);
    assert Value('=') == 0;
    if |s| == 1 {
      SymbolPlaced(s[0] % 4 * 16);
    } else if |s| == 2 {
      SymbolPlaced(s[0] % 4 * 16 + s[1] / 16);
      SymbolPlaced(s[1] % 16 * 4);
    } else {
      SymbolPlaced(s[0] % 4 * 16 + s[1] / 16);
      SymbolPlaced(s[1] % 16 * 4 + s[2] / 64);
      SymbolPlaced(s[2] % 64);
    }
  }

  lemma {:induction false} QuantumPlaces(s: seq<Byte>, j: nat)
    requires 1 <= |s| <= 3 && j < 4
    ensures PlacedRight(Quantum(s), |s|, j)
  {
  }

  lemma {:induction false} QuantumIs(s: seq<Byte>)
    requires 1 <= |s| <= 3
    ensures Represents(Quantum(s), s)
  {
    var r, n := Quantum(s), |s|;
    QuantumBits(s);
    forall j | 0 <= j < 4 ensures PlacedRight(r, n, j) { QuantumPlaces(s, j); }
    OneQuantum(r, s);
  }

  lemma {:induction false} OneQuantum(r: string, s: seq<Byte>)
    requires |r| == 4 && 1 <= |s| <= 3 && SymbolsAt(r, 0) == BytesAt(s, 0)
    requires forall j :: 0 <= j < 4 ==> PlacedRight(r, |s|, j)
    ensures Represents(r, s)
  {
    assert Quanta(|s|) == 1;
  }

  lemma {:induction false} StepPlaces(h: string, r: string, n: nat, j: nat)
    requires |h| == 4 && j < 4 + |r| && |r| >= Pad(n)
    requires if j < 4 then PlacedRight(h, 3, j) else PlacedRight(r, n, j - 4)
    ensures PlacedRight(h + r, n + 3, j)
  {
    assert Pad(n + 3) == Pad(n) && Pad(3) == 0;
  }

  lemma {:induction false} StepBits(h: string, r: string, head: seq<Byte>, rest: seq<Byte>, q: nat)
    requires |h| == 4 && |head| == 3 && 4 * q <= |r|
    requires SymbolsAt(h, 0) == BytesAt(head, 0)
    requires q > 0 ==> SymbolsAt(r, q - 1) == BytesAt(rest, q - 1)
    ensures SymbolsAt(h + r, q) == BytesAt(head + rest, q)
  {
    var t, s := h + r, head + rest;
    if q == 0 {
      assert t[0] == h[0] && t[1] == h[1] && t[2] == h[2] && t[3] == h[3];
      assert s[0] == head[0] && s[1] == head[1] && s[2] == head[2];
    } else {
      var k, m := 4 * (q - 1), 3 * (q - 1);
      assert t[k + 4] == r[k] && t[k + 5] == r[k + 1] && t[k + 6] == r[k + 2] && t[k + 7] == r[k + 3];
      assert At(s, m + 3) == At(rest, m) && At(s, m + 4) == At(rest, m + 1) && At(s, m + 5) == At(rest, m + 2);
    }
  }

  /** A whole quantum in front of a representation. */
  lemma {:induction false} RepresentsStep(head: seq<Byte>, rest: seq<Byte>, r: string)
    requires |head| == 3 && Represents(r, rest)
    ensures Represents(Quantum(head) + r, head + rest)
  {
    var h, n, m := Quantum(head), |rest|, |rest| + 3;
    var t := h + r;
    QuantumIs(head);
    QuantaStep(m);
    PadFillsQuanta(n);
    forall j | 0 <= j < |t| ensures PlacedRight(t, m, j) {
      if j < 4 { assert PlacedRight(h, 3, j); } else { assert PlacedRight(r, n, j - 4); }
      StepPlaces(h, r, n, j);
    }
    forall q: nat | q < Quanta(m) ensures SymbolsAt(t, q) == BytesAt(head + rest, q) {
      assert SymbolsAt(h, 0) == BytesAt(head, 0);
      if q > 0 { assert SymbolsAt(r, q - 1) == BytesAt(rest, q - 1); }
      StepBits(h, r, head, rest, q);
    }
  }

  lemma {:induction false} EncodeRepresents(s: seq<Byte>)
    ensures Represents(Encode(s), s)
    decreases |s|
  {
    if 1 <= |s| <= 3 {
      QuantumIs(s);
    } else if |s| > 3 {
      EncodeRepresents(s[3..]);
      RepresentsStep(s[..3], s[3..], Encode(s[3..]));
      assert s == s[..3] + s[3..];
    }
  }

  lemma {:induction false} FourDigits(a: Sextet, b: Sextet, c: Sextet, d: Sextet,
                                      a': Sextet, b': Sextet, c': Sextet, d': Sextet)
    requires a * 262144 + b * 4096 + c * 64 + d == a' * 262144 + b' * 4096 + c' * 64 + d'
    ensures a == a' && b == b' && c == c' && d == d'
  {
  }

  /** Two characters that stand for the same value at the same place. */
  lemma {:induction false} SameSymbol(r: string, r': string, n: nat, j: nat)
    requires |r| == |r'| && j < |r| && PlacedRight(r, n, j) && PlacedRight(r', n, j)
    requires Value(r[j]) == Value(r'[j])
    ensures r[j] == r'[j]
  {
    if j < |r| - Pad(n) {
      var x: Sextet :| r[j] == Symbol(x);
      var x': Sextet :| r'[j] == Symbol(x');
      SymbolPlaced(x);
      SymbolPlaced(x');
    }
  }

  lemma {:induction false} SameValues(r: string, r': string, q: nat, j: nat)
    requires |r| == |r'| && 4 * q + 4 <= |r| && SymbolsAt(r, q) == SymbolsAt(r', q)
    requires 4 * q <= j < 4 * q + 4
    ensures Value(r[j]) == Value(r'[j])
  {
    FourDigits(Value(r[4 * q]), Value(r[4 * q + 1]), Value(r[4 * q + 2]), Value(r[4 * q + 3]),
               Value(r'[4 * q]), Value(r'[4 * q + 1]), Value(r'[4 * q + 2]), Value(r'[4 * q + 3]));
  }

  lemma {:induction false} RepresentedOnce(r: string, r': string, s: seq<Byte>)
    requires Represents(r, s) && Represents(r', s)
    ensures r == r'
  {
    forall j | 0 <= j < |r| ensures r[j] == r'[j] {
      var q := j / 4;
      assert SymbolsAt(r, q) == BytesAt(s, q) == SymbolsAt(r', q);
      SameValues(r, r', q, j);
      assert PlacedRight(r, |s|, j) && PlacedRight(r', |s|, j);
      SameSymbol(r, r', |s|, j);
    }
  }

  /** The encoder gives the one text that represents the bytes. */
  lemma {:induction false} EncodeIsTheRepresentation(s: seq<Byte>, r: string)
    ensures r == Encode(s) <==> Represents(r, s)
  {
    EncodeRepresents(s);
    if Represents(r, s) { RepresentedOnce(r, Encode(s), s); }
  }

  // --------------------------------------------------------------- padding

  /** Padding stands only at the very end of an encoding. */
  lemma {:induction false} PaddingIsLast(s: seq<Byte>, i: nat)
    requires i < |Encode(s)| && Encode(s)[i] == '='
    ensures |Encode(s)| - 2 <= i
  {
    EncodeRepresents(s);
    assert PlacedRight(Encode(s), |s|, i);
    if i < |Encode(s)| - 2 {
      var x: Sextet :| Encode(s)[i] == Symbol(x);
      SymbolPlaced(x);
      assert false;
    }
  }

  /** An encoding ends in padding exactly when the length is no multiple of 3. */
  lemma {:induction false} EndsInPadding(s: seq<Byte>)
    requires s != []
    ensures Encode(s) != "" && (Encode(s)[|Encode(s)| - 1] == '=' <==> |s| % 3 != 0)
  {
    EncodeRepresents(s);
    PadOfMultiple(|s|);
    var last := |Encode(s)| - 1;
    assert PlacedRight(Encode(s), |s|, last);
    if Pad(|s|) == 0 {
      var x: Sextet :| Encode(s)[last] == Symbol(x);
      SymbolPlaced(x);
    }
  }

  lemma {:induction false} PadOfMultiple(n: nat)
    ensures Pad(n) == 0 <==> n % 3 == 0
    ensures n > 0 ==> Quanta(n) > 0
  {
  }

  // ---------------------------------------------------------------- chunks

  function Concat(chunks: seq<seq<Byte>>): seq<Byte> {
    if chunks == [] then [] else chunks[0] + Concat(chunks[1..])
  }

  /** What the writer sends: each chunk encoded by itself. */
  function EncodeChunks(chunks: seq<seq<Byte>>): string {
    if chunks == [] then "" else Encode(chunks[0]) + EncodeChunks(chunks[1..])
  }

  /** All chunks but the last are cut at a multiple of three bytes. */
  ghost predicate Aligned(chunks: seq<seq<Byte>>) {
    forall i :: 0 <= i < |chunks| - 1 ==> |chunks[i]| % 3 == 0
  }

  ghost predicate NonEmpty(chunks: seq<seq<Byte>>) {
    forall i :: 0 <= i < |chunks| ==> chunks[i] != []
  }

  lemma {:induction false} AlignedIsWhole(chunks: seq<seq<Byte>>)
    requires Aligned(chunks)
    ensures EncodeChunks(chunks) == Encode(Concat(chunks))
    decreases |chunks|
  {
    if |chunks| == 1 {
      assert Concat(chunks) == chunks[0] + [] == chunks[0];
    } else if |chunks| > 1 {
      AlignedIsWhole(chunks[1..]);
      EncodeAppend(chunks[0], Concat(chunks[1..]));
    }
  }

  lemma {:induction false} EncodeChunksNonEmpty(chunks: seq<seq<Byte>>)
    requires chunks != [] && NonEmpty(chunks)
    ensures |EncodeChunks(chunks)| >= 4
  {
    EncodedLength(chunks[0]);
  }

  lemma {:induction false} UnalignedIsNotWhole(chunks: seq<seq<Byte>>)
    requires NonEmpty(chunks) && EncodeChunks(chunks) == Encode(Concat(chunks))
    ensures Aligned(chunks)
    decreases |chunks|
  {
    if |chunks| > 1 {
      var first, rest := chunks[0], chunks[1..];
      var r := Encode(first);
      EndsInPadding(first);
      EncodeChunksNonEmpty(rest);
      assert EncodeChunks(chunks)[|r| - 1] == r[|r| - 1];
      if r[|r| - 1] == '=' {
        PaddingIsLast(Concat(chunks), |r| - 1);
        assert false;
      }
      EncodeAppend(first, Concat(rest));
      assert EncodeChunks(rest) == Encode(Concat(rest)) by {
        assert r + EncodeChunks(rest) == r + Encode(Concat(rest));
        assert (r + EncodeChunks(rest))[|r|..] == EncodeChunks(rest);
        assert (r + Encode(Concat(rest)))[|r|..] == Encode(Concat(rest));
      }
      UnalignedIsNotWhole(rest);
      forall i | 0 <= i < |chunks| - 1 ensures |chunks[i]| % 3 == 0 {
        if i > 0 { assert rest[i - 1] == chunks[i]; }
      }
    }
  }

  /** What is sent is the encoding of the file, and so decodes to it, exactly
      when every chunk but the last is a multiple of three bytes long. */
  lemma {:induction false} ChunkedIsWholeIff(chunks: seq<seq<Byte>>)
    requires NonEmpty(chunks)
    ensures EncodeChunks(chunks) == Encode(Concat(chunks)) <==> Aligned(chunks)
    ensures Aligned(chunks) ==> Decode(EncodeChunks(chunks)) == Some(Concat(chunks))
  {
    if Aligned(chunks) {
      AlignedIsWhole(chunks);
      DecodeOfEncode(Concat(chunks));
    }
    if EncodeChunks(chunks) == Encode(Concat(chunks)) { UnalignedIsNotWhole(chunks); }
  }

  // ------------------------------------------------------- promised length

  const WORD := 0x1_0000_0000_0000_0000

  /** base64_file_body::size, on 64-bit words. */
  function Size(fileSize: nat): nat {
    (fileSize + 2) % WORD / 3 * 4 % WORD
  }

  lemma {:induction false} SizeIsQuanta(n: nat)
    requires n < WORD
    ensures Size(n) == 4 * Quanta(n) <==> 4 * Quanta(n) < WORD
  {
    if n + 2 < WORD {
      assert Size(n) == 4 * Quanta(n) % WORD;
    } else {
      assert n + 2 - WORD < 3;
    }
  }

  /** The promise is the encoded length exactly as long as that length fits. */
  lemma {:induction false} SizeIsEncodedLength(s: seq<Byte>)
    requires |s| < WORD
    ensures Size(|s|) == |Encode(s)| <==> |Encode(s)| < WORD
  {
    EncodedLength(s);
    SizeIsQuanta(|s|);
  }

  function TotalPad(chunks: seq<seq<Byte>>): nat {
    if chunks == [] then 0 else Pad(|chunks[0]|) + TotalPad(chunks[1..])
  }

  lemma {:induction false} PadFillsQuanta(n: nat)
    ensures 3 * Quanta(n) == n + Pad(n)
  {
  }

  /** The number of quanta sent. */
  function Sent(chunks: seq<seq<Byte>>): nat {
    if chunks == [] then 0 else Quanta(|chunks[0]|) + Sent(chunks[1..])
  }

  lemma {:induction false} SentLength(chunks: seq<seq<Byte>>)
    ensures |EncodeChunks(chunks)| == 4 * Sent(chunks)
    ensures 3 * Sent(chunks) == |Concat(chunks)| + TotalPad(chunks)
    decreases |chunks|
  {
    if chunks != [] {
      var first, rest := chunks[0], chunks[1..];
      SentLength(rest);
      EncodedLength(first);
      PadFillsQuanta(|first|);
      assert |EncodeChunks(chunks)| == |Encode(first)| + |EncodeChunks(rest)|;
      assert |Concat(chunks)| == |first| + |Concat(rest)|;
    }
  }

  /** The characters sent never fall short of the size promised, exceed it by
      four for every three surplus padding characters, and meet it exactly
      when the chunks are padded by at most two characters altogether. */
  lemma {:induction false} SentAgainstPromise(chunks: seq<seq<Byte>>)
    requires |Encode(Concat(chunks))| < WORD
    ensures var sent, promised := |EncodeChunks(chunks)|, Size(|Concat(chunks)|);
            && sent >= promised
            && 3 * (sent - promised) == 4 * (TotalPad(chunks) - Pad(|Concat(chunks)|))
            && (sent == promised <==> TotalPad(chunks) <= 2)
  {
    var n := |Concat(chunks)|;
    SentLength(chunks);
    EncodedLength(Concat(chunks));
    SizeIsQuanta(n);
    SurplusQuanta(n, Sent(chunks), TotalPad(chunks));
  }

  lemma {:induction false} SurplusQuanta(n: nat, sent: nat, pad: nat)
    requires 3 * sent == n + pad
    ensures sent >= Quanta(n)
    ensures 3 * (sent - Quanta(n)) == pad - Pad(n)
    ensures sent == Quanta(n) <==> pad <= 2
  {
    PadFillsQuanta(n);
  }

  // ------------------------------------------------------------ full buffers

  /** The chunks of a file whose every read fills the buffer. */
  function FullReads(file: seq<Byte>, bufSize: nat): seq<seq<Byte>>
    requires bufSize >= 1
    decreases |file|
  {
    if file == [] then []
    else if |file| <= bufSize then [file]
    else [file[..bufSize]] + FullReads(file[bufSize..], bufSize)
  }

  /** The padding that full reads of a file of n bytes bring with them. */
  function ReadPadding(n: nat, bufSize: nat): nat
    requires bufSize >= 1
    decreases n
  {
    if n <= bufSize then Pad(n) else Pad(bufSize) + ReadPadding(n - bufSize, bufSize)
  }

  lemma {:induction false} FullReadsCoverFile(file: seq<Byte>, bufSize: nat)
    requires bufSize >= 1
    ensures Concat(FullReads(file, bufSize)) == file && NonEmpty(FullReads(file, bufSize))
    ensures Aligned(FullReads(file, bufSize)) <==> |file| <= bufSize || bufSize % 3 == 0
    decreases |file|
  {
    var chunks := FullReads(file, bufSize);
    if file != [] && |file| <= bufSize {
      assert Concat(chunks) == file + [] == file;
    } else if |file| > bufSize {
      var rest := file[bufSize..];
      FullReadsCoverFile(rest, bufSize);
      assert chunks[0] == file[..bufSize];
      assert forall i :: 1 <= i < |chunks| ==> chunks[i] == FullReads(rest, bufSize)[i - 1];
      assert file == file[..bufSize] + rest;
    }
  }

  lemma {:induction false} FullReadsPadding(file: seq<Byte>, bufSize: nat)
    requires bufSize >= 1
    ensures TotalPad(FullReads(file, bufSize)) == ReadPadding(|file|, bufSize)
    decreases |file|
  {
    var chunks := FullReads(file, bufSize);
    if |file| > bufSize {
      FullReadsPadding(file[bufSize..], bufSize);
      assert chunks[1..] == FullReads(file[bufSize..], bufSize);
    } else if file != [] {
      assert chunks == [file] && chunks[1..] == [];
    }
  }

  /** With full reads the output is the encoding of the file exactly when one
      read suffices or the buffer holds a multiple of three bytes; and its
      length is the promised one exactly when the reads are padded by at most
      two characters altogether, which those two cases imply. */
  lemma {:induction false} FullReadsExactly(file: seq<Byte>, bufSize: nat)
    requires bufSize >= 1 && |Encode(file)| < WORD
    ensures var out := EncodeChunks(FullReads(file, bufSize));
            var whole := |file| <= bufSize || bufSize % 3 == 0;
            && (out == Encode(file) <==> whole)
            && (|out| == Size(|file|) <==> ReadPadding(|file|, bufSize) <= 2)
            && (whole ==> |out| == Size(|file|))
            && |out| >= Size(|file|)
  {
    var chunks := FullReads(file, bufSize);
    FullReadsCoverFile(file, bufSize);
    ChunkedIsWholeIff(chunks);
    FullReadsPadding(file, bufSize);
    SentAgainstPromise(chunks);
    EncodedLength(file);
    SizeIsQuanta(|file|);
  }

  const USUAL_BUFFER := 4096

  /** At the usual buffer size of 4096 bytes the content is right for files of
      up to one buffer only; the promised length also holds for those up to
      two buffers long whose second read is a multiple of three bytes. */
  lemma {:induction false} UsualBuffer(file: seq<Byte>)
    requires |Encode(file)| < WORD
    ensures var out, n := EncodeChunks(FullReads(file, USUAL_BUFFER)), |file|;
            && (out == Encode(file) <==> n <= 4096)
            && (|out| == Size(n) <==> n <= 4096 || (n <= 8192 && (n - 4096) % 3 == 0))
  {
    FullReadsExactly(file, USUAL_BUFFER);
    UsualPadding(|file|);
  }

  lemma {:induction false} UsualPadding(n: nat)
    ensures ReadPadding(n, USUAL_BUFFER) <= 2 <==> n <= 4096 || (n <= 8192 && (n - 4096) % 3 == 0)
  {
    if n > 4096 {
      var more := n - 4096;
      assert ReadPadding(n, 4096) == 2 + ReadPadding(more, 4096);
      if more > 4096 { assert ReadPadding(more, 4096) >= 2; }
    }
  }

  // ------------------------------------------------------------- the writer

  /** Every chunk's encoding fits the output buffer of twice the input buffer,
      exactly when the input buffer is longer than one byte. */
  lemma {:induction false} OutputFits(bufSize: nat)
    requires bufSize >= 1
    ensures (forall n: nat {:trigger Quanta(n)} :: n <= bufSize ==> 4 * Quanta(n) <= 2 * bufSize) <==> bufSize >= 2
  {
    if bufSize == 1 { assert Quanta(1) == 1; }
  }

  lemma {:induction false} ConcatAppend(chunks: seq<seq<Byte>>, c: seq<Byte>)
    ensures Concat(chunks + [c]) == Concat(chunks) + c
    decreases |chunks|
  {
    if chunks == [] {
      assert chunks + [c] == [c] && Concat([c]) == c + Concat([]);
    } else {
      ConcatAppend(chunks[1..], c);
      assert (chunks + [c])[1..] == chunks[1..] + [c];
    }
  }

  lemma {:induction false} EncodeChunksAppend(chunks: seq<seq<Byte>>, c: seq<Byte>)
    ensures EncodeChunks(chunks + [c]) == EncodeChunks(chunks) + Encode(c)
    decreases |chunks|
  {
    var all := chunks + [c];
    if chunks == [] {
      assert all == [c] && all[1..] == [];
    } else {
      EncodeChunksAppend(chunks[1..], c);
      assert all[0] == chunks[0] && all[1..] == chunks[1..] + [c];
      Assoc(Encode(chunks[0]), EncodeChunks(chunks[1..]), Encode(c));
    }
  }

  /** What one more read does to the chunks read and sent. */
  lemma {:induction false} ReadStep(file: seq<Byte>, bufSize: nat, chunks: seq<seq<Byte>>, pos: nat, n: nat)
    requires bufSize >= 2 && 1 <= n <= bufSize && pos + n <= |file|
    requires Concat(chunks) == file[..pos] && NonEmpty(chunks)
    ensures var data := file[pos..pos + n];
            && Concat(chunks + [data]) == file[..pos + n] && NonEmpty(chunks + [data])
            && EncodeChunks(chunks + [data]) == EncodeChunks(chunks) + Encode(data)
            && |Encode(data)| <= 2 * bufSize && Represents(Encode(data), data)
  {
    var data := file[pos..pos + n];
    ConcatAppend(chunks, data);
    EncodeChunksAppend(chunks, data);
    EncodedLength(data);
    EncodeRepresents(data);
    assert file[..pos + n] == file[..pos] + data;
  }

  class Writer {
    const file: seq<Byte>
    const bufSize: nat      // the buffer of the underlying file writer
    const buf: array<char>  // buf_
    var remain: nat         // bytes the file writer has not handed out

    ghost var chunks: seq<seq<Byte>>  // what the reads returned so far
    ghost var sent: string            // what went out so far

    ghost predicate Valid()
      reads this
    {
      && bufSize >= 2 && buf.Length == 2 * bufSize
      && remain <= |file|
      && Concat(chunks) == file[..|file| - remain] && NonEmpty(chunks)
      && sent == EncodeChunks(chunks)
    }

    constructor (file: seq<Byte>, bufSize: nat)
      requires bufSize >= 2
      ensures Valid() && fresh(buf) && this.file == file && this.bufSize == bufSize
      ensures chunks == [] && sent == "" && remain == |file|
    {
      this.file, this.bufSize := file, bufSize;
      buf := new char[2 * bufSize](_ => '\0');
      remain, chunks, sent := |file|, [], "";
    }

    /** get: one read of `nread` bytes (fewer than asked for, if the system so
        decides; none, or not ok, ends the body), encoded into buf_. The flag
        tells whether more is to come. */
    method Get(nread: nat, ok: bool) returns (r: Option<(nat, bool)>)
      requires Valid() && nread <= bufSize && nread <= remain
      modifies this, buf
      ensures Valid()
      ensures r.None? <==> !ok || nread == 0
      ensures r.None? ==> chunks == old(chunks) && sent == old(sent) && remain == old(remain)
      ensures r.Some? ==>
                && chunks == old(chunks) + [old(file[|file| - remain..|file| - remain + nread])]
                && remain == old(remain) - nread
                && r.value.0 <= buf.Length && sent == old(sent) + buf[..r.value.0]
                && (r.value.1 <==> remain > 0)
                && Represents(buf[..r.value.0], chunks[|chunks| - 1])
      ensures r.Some? && !r.value.1 ==>
                && Concat(chunks) == file
                && (sent == Encode(file) <==> Aligned(chunks))
    {
      if !ok || nread == 0 { return None; }
      var pos := |file| - remain;
      var data := file[pos..pos + nread];
      ReadStep(file, bufSize, chunks, pos, nread);
      remain := remain - nread;
      var encoded := Encode(data);
      forall i | 0 <= i < |encoded| { buf[i] := encoded[i]; }
      assert buf[..|encoded|] == encoded;
      chunks, sent := chunks + [data], sent + encoded;
      if remain == 0 {
        assert file[..|file|] == file;
        ChunkedIsWholeIff(chunks);
      }
      return Some((|encoded|, remain > 0));
    }
  }
}
