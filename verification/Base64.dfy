/** The base64 codec: section 6.8 of RFC 2045. */
module Base64 {
  import opened Arith
  import opened Streams

  datatype LineEnding = CR | LF | CRLF

  const PAD: byte := 61
  const BAD_VALUE: byte := 100

  /** Table 1 of RFC 2045: the character for a six-bit value. */
  function Letter(v: nat): (c: byte)
    requires v < 64
  {
    if v < 26 then v + 65 else if v < 52 then v + 71 else if v < 62 then v - 4 else if v == 62 then 43 else 47
  }

  /** The six-bit value of a character, BAD_VALUE if it has none. */
  function Value(c: byte): (v: byte)
  {
    if 65 <= c <= 90 then c - 65
    else if 97 <= c <= 122 then c - 71
    else if 48 <= c <= 57 then c + 4
    else if c == 43 then 62
    else if c == 47 then 63
    else BAD_VALUE
  }

  lemma ValueOfLetter(v: nat)
    requires v < 64
    ensures Value(Letter(v)) == v
  {
  }

  lemma LetterOfValue(c: byte)
    requires Value(c) != BAD_VALUE
    ensures Value(c) < 64 && Letter(Value(c)) == c
  {
  }

  /** A byte that carries data or padding; all others are skipped when decoding. */
  predicate Symbol(c: byte) {
    Value(c) != BAD_VALUE || c == PAD
  }

  // ---- encoding ----

  /** The 24 bits of a group of up to three bytes, padded with zeros. */
  function GroupBits(x: seq<byte>): (n: nat)
    requires 1 <= |x| <= 3
    ensures n < 0x100_0000
  {
    0x1_0000 * (x[0] as nat) + (if |x| > 1 then 0x100 * (x[1] as nat) else 0) + (if |x| > 2 then x[2] else 0)
  }

  /** The four characters for up to three bytes. */
  function Quad(x: seq<byte>): (q: seq<byte>)
    requires 1 <= |x| <= 3
    ensures |q| == 4
  {
    var n := GroupBits(x);
    [Letter(n / 0x4_0000), Letter(n / 0x1000 % 64),
     if |x| > 1 then Letter(n / 64 % 64) else PAD, if |x| > 2 then Letter(n % 64) else PAD]
  }

  function Eol(style: LineEnding): seq<byte> {
    match style
    case CR => [13]
    case LF => [10]
    case CRLF => [13, 10]
  }

  /** The encoding of x, where counter groups still fit on the current line. */
  function Encoding(style: LineEnding, counter: nat, x: seq<byte>): seq<byte>
    decreases |x|
  {
    if x == [] then []
    else
      var k := if |x| < 3 then |x| else 3;
      (if counter == 0 then Eol(style) else []) + Quad(x[..k]) +
      Encoding(style, (if counter == 0 then 19 else counter) - 1, x[k..])
  }

  // ---- decoding ----

  /** The symbols among the bytes. */
  function Symbols(b: seq<byte>): (s: seq<byte>) {
    if b == [] then [] else (if Symbol(b[0]) then [b[0]] else []) + Symbols(b[1..])
  }

  /** The symbols that the decoder takes: all, but for padding at the very beginning. */
  function Taken(b: seq<byte>): seq<byte> {
    if b != [] && b[0] == PAD then Symbols(b[1..]) else Symbols(b)
  }

  /** Bitwise or. */
  function Or(a: nat, b: nat): nat {
    if a == 0 then b else if b == 0 then a
    else 2 * Or(a / 2, b / 2) + if a % 2 == 1 || b % 2 == 1 then 1 else 0
  }

  lemma {:induction false} OrBits(a: nat, b: nat, k: nat)
    requires a < Pow2(k) && b < Pow2(k)
    ensures Or(a, b) < Pow2(k)
  {
    if k > 0 {
      OrBits(a / 2, b / 2, k - 1);
    }
  }

  lemma OrByte(a: byte, b: byte)
    ensures Or(a, b) < 256
  {
    Pow2Small();
    OrBits(a, b, 8);
  }

  /** Numbers without common bits. */
  lemma {:induction false} OrApart(a: nat, b: nat, k: nat)
    requires b < Pow2(k) && a % Pow2(k) == 0
    ensures Or(a, b) == a + b
  {
    if k > 0 {
      var m := a / Pow2(k);
      assert a == m * Pow2(k) == 2 * (m * Pow2(k - 1)) by { MulDouble(m, Pow2(k - 1), Pow2(k)); }
      DivExact(m, Pow2(k - 1));
      OrApart(a / 2, b / 2, k - 1);
    }
  }

  /** How many bytes four symbols stand for. */
  function OutSize(q: seq<byte>): nat
    requires |q| == 4
  {
    if q[3] == PAD then (if q[2] == PAD then 1 else 2) else 3
  }

  /** The bytes of four symbols; padding in a wrong place counts as the value BAD_VALUE. */
  function Unquad(q: seq<byte>): (x: seq<byte>)
    requires |q| == 4
  {
    var a, b, c, d := Value(q[0]), Value(q[1]), Value(q[2]), Value(q[3]);
    OrByte(a * 4 % 256, b / 16);
    OrByte(b * 16 % 256, c / 4);
    OrByte(c * 64 % 256, d);
    [Or(a * 4 % 256, b / 16), Or(b * 16 % 256, c / 4), Or(c * 64 % 256, d)][..OutSize(q)]
  }

  /** The bytes of a number of symbols, as far as they make up groups of four. */
  function Decoding(s: seq<byte>): seq<byte> {
    if |s| < 4 then [] else Unquad(s[..4]) + Decoding(s[4..])
  }

  // ---- decoding gives back what was encoded ----

  /** The six-bit values of 24 bits. */
  lemma Digits(a: byte, b: byte, c: byte)
    ensures var n := 0x1_0000 * (a as nat) + 0x100 * (b as nat) + c;
            && n / 0x4_0000 == a / 4 && n / 0x1000 % 64 == a % 4 * 16 + b / 16
            && n / 64 % 64 == b % 16 * 4 + c / 64 && n % 64 == c % 64
  {
    var n: int := 0x1_0000 * (a as int) + 0x100 * (b as int) + c;
    var a1: int, a0: int, b1: int, b0: int, c1: int, c0: int := a / 4, a % 4, b / 16, b % 16, c / 64, c % 64;
    DivModUnique(n, 0x4_0000, a1, a0 * 0x1_0000 + b * 0x100 + c);
    DivModUnique(n, 0x1000, a1 * 64 + (a0 * 16 + b1), b0 * 0x100 + c);
    DivModUnique(a1 * 64 + (a0 * 16 + b1), 64, a1, a0 * 16 + b1);
    DivModUnique(n, 64, (a * 16 + b1) * 64 + (b0 * 4 + c1), c0);
    DivModUnique((a * 16 + b1) * 64 + (b0 * 4 + c1), 64, a * 16 + b1, b0 * 4 + c1);
  }

  /** Joining six-bit values to bytes again. */
  lemma Rejoin(a: byte, b: byte, c: byte)
    ensures var v0, v1, v2, v3 := a / 4, a % 4 * 16 + b / 16, b % 16 * 4 + c / 64, c % 64;
            Or(v0 * 4 % 256, v1 / 16) == a && Or(v1 * 16 % 256, v2 / 4) == b && Or(v2 * 64 % 256, v3) == c
  {
    hide Or, Pow2;
    var v1, v2 := a % 4 * 16 + b / 16, b % 16 * 4 + c / 64;
    assert v1 * 16 % 256 == b / 16 * 16 && v1 / 16 == a % 4 && v2 / 4 == b % 16 && v2 * 64 % 256 == c / 64 * 64;
    Pow2Small();
    OrApart(a / 4 * 4, a % 4, 2);
    OrApart(b / 16 * 16, b % 16, 4);
    OrApart(c / 64 * 64, c % 64, 6);
  }

  lemma LetterIsNoPad(v: nat)
    requires v < 64
    ensures Letter(v) != PAD
  {
  }

  function ByteOf(x: seq<byte>, i: nat): byte {
    if i < |x| then x[i] else 0
  }

  lemma QuadDigits(x: seq<byte>)
    requires 1 <= |x| <= 3
    ensures var a, b, c := ByteOf(x, 0), ByteOf(x, 1), ByteOf(x, 2);
            Quad(x) == [Letter(a / 4), Letter(a % 4 * 16 + b / 16),
                        if |x| > 1 then Letter(b % 16 * 4 + c / 64) else PAD, if |x| > 2 then Letter(c % 64) else PAD]
  {
    hide Letter;
    Digits(ByteOf(x, 0), ByteOf(x, 1), ByteOf(x, 2));
  }

  lemma QuadBack(x: seq<byte>)
    requires 1 <= |x| <= 3
    ensures Unquad(Quad(x)) == x
  {
    hide Or, Letter, Value, Quad;
    var a, b, c := ByteOf(x, 0), ByteOf(x, 1), ByteOf(x, 2);
    QuadDigits(x);
    ValueOfLetter(a / 4);
    ValueOfLetter(a % 4 * 16 + b / 16);
    ValueOfLetter(b % 16 * 4 + c / 64);
    ValueOfLetter(c % 64);
    LetterIsNoPad(b % 16 * 4 + c / 64);
    LetterIsNoPad(c % 64);
    Rejoin(a, b, c);
  }

  lemma Regroup(s: seq<byte>, t: seq<byte>, u: seq<byte>)
    ensures s + (t + u) == (s + t) + u
  {
  }

  lemma {:induction false} SymbolsAppend(b: seq<byte>, c: seq<byte>)
    ensures Symbols(b + c) == Symbols(b) + Symbols(c)
  {
    hide Symbol;
    if b == [] {
      assert b + c == c;
    } else {
      SymbolsAppend(b[1..], c);
      assert (b + c)[1..] == b[1..] + c;
      Regroup(if Symbol(b[0]) then [b[0]] else [], Symbols(b[1..]), Symbols(c));
    }
  }

  /** What an encoding looks like without its line ends. */
  function Unbroken(x: seq<byte>): seq<byte>
    decreases |x|
  {
    if x == [] then []
    else
      var k := if |x| < 3 then |x| else 3;
      Quad(x[..k]) + Unbroken(x[k..])
  }

  lemma QuadSymbols(x: seq<byte>, style: LineEnding)
    requires 1 <= |x| <= 3
    ensures Symbols(Quad(x)) == Quad(x) && Symbols(Eol(style)) == [] && Quad(x)[0] != PAD
  {
    hide Letter;
    var q := Quad(x);
    forall i | 0 <= i < 4
      ensures Symbol(q[i])
    {
      QuadSymbol(x, i);
    }
    var n := GroupBits(x);
    LetterIsNoPad(n / 0x4_0000);
    assert Symbols(q[4..]) == [];
    assert q[1..][1..] == q[2..] && q[2..][1..] == q[3..] && q[3..][1..] == q[4..];
    assert Symbols(q[3..]) == [q[3]];
    assert Symbols(q[2..]) == [q[2]] + [q[3]];
    assert Symbols(q[1..]) == [q[1]] + ([q[2]] + [q[3]]);
    EolSkipped(style);
  }

  lemma EolSkipped(style: LineEnding)
    ensures Symbols(Eol(style)) == []
  {
    assert [13, 10 as byte][1..] == [10];
    assert Symbols([]) == [];
  }

  lemma QuadSymbol(x: seq<byte>, i: nat)
    requires 1 <= |x| <= 3 && i < 4
    ensures Symbol(Quad(x)[i])
  {
    hide Letter, Value;
    var n := GroupBits(x);
    ValueOfLetter(n / 0x4_0000);
    ValueOfLetter(n / 0x1000 % 64);
    ValueOfLetter(n / 64 % 64);
    ValueOfLetter(n % 64);
  }

  lemma {:induction false} SymbolsOfEncoding(style: LineEnding, counter: nat, x: seq<byte>)
    ensures Symbols(Encoding(style, counter, x)) == Unbroken(x)
    decreases |x|
  {
    hide Quad, Symbols, Eol;
    if x == [] {
      NothingToDecode();
    } else {
      var k := if |x| < 3 then |x| else 3;
      var rest := Encoding(style, (if counter == 0 then 19 else counter) - 1, x[k..]);
      SymbolsOfEncoding(style, (if counter == 0 then 19 else counter) - 1, x[k..]);
      QuadSymbols(x[..k], style);
      var q := Quad(x[..k]);
      SymbolsAppend(Eol(style) + q, rest);
      SymbolsAppend(Eol(style), q);
      SymbolsAppend(q, rest);
      assert [] + q == q;
    }
  }

  lemma {:induction false} DecodeUnbroken(x: seq<byte>)
    ensures |Unbroken(x)| % 4 == 0 && Decoding(Unbroken(x)) == x
    ensures x != [] ==> |Unbroken(x)| > 0 && Unbroken(x)[0] != PAD
    decreases |x|
  {
    hide Quad, Unquad;
    if x != [] {
      var k := if |x| < 3 then |x| else 3;
      var q, rest := Quad(x[..k]), Unbroken(x[k..]);
      DecodeUnbroken(x[k..]);
      QuadBack(x[..k]);
      QuadSymbols(x[..k], LF);
      assert (q + rest)[..4] == q && (q + rest)[4..] == rest;
      assert x == x[..k] + x[k..];
    }
  }

  /** Encoding and decoding: any bytes whose symbols are those of an encoding decode to what was
      encoded, whatever line ends or other bytes without meaning have been put in or taken out. */
  lemma DecodesToOriginal(style: LineEnding, x: seq<byte>, b: seq<byte>)
    requires Symbols(b) == Symbols(Encoding(style, 19, x))
    ensures Taken(b) == Symbols(b) && |Taken(b)| % 4 == 0 && Decoding(Taken(b)) == x
  {
    hide Quad, Unquad, Encoding, Decoding, Unbroken, Taken;
    SymbolsOfEncoding(style, 19, x);
    DecodeUnbroken(x);
    NothingUnbroken(x);
    AllTaken(b);
  }

  /** Unless padding comes first, all symbols are taken. */
  lemma AllTaken(b: seq<byte>)
    requires Symbols(b) != [] ==> Symbols(b)[0] != PAD
    ensures Taken(b) == Symbols(b)
  {
  }

  lemma NothingUnbroken(x: seq<byte>)
    ensures x == [] ==> Unbroken(x) == []
  {
  }

  /** Bytes without meaning may be put in anywhere. */
  lemma NoiseIsSkipped(b: seq<byte>, noise: seq<byte>, c: seq<byte>)
    requires forall i :: 0 <= i < |noise| ==> !Symbol(noise[i])
    ensures Symbols(b + noise + c) == Symbols(b + c)
  {
    NoSymbols(noise);
    SymbolsAppend(b + noise, c);
    SymbolsAppend(b, noise);
    SymbolsAppend(b, c);
    assert Symbols(b) + [] == Symbols(b);
  }

  lemma {:induction false} NoSymbols(noise: seq<byte>)
    requires forall i :: 0 <= i < |noise| ==> !Symbol(noise[i])
    ensures Symbols(noise) == []
  {
    if noise != [] {
      NoSymbols(noise[1..]);
    }
  }

  /** Encodings may follow one another. */
  lemma EncodingsConcatenate(style: LineEnding, style': LineEnding, x: seq<byte>, y: seq<byte>)
    ensures var b := Encoding(style, 19, x) + Encoding(style', 19, y);
            |Taken(b)| % 4 == 0 && Decoding(Taken(b)) == x + y
  {
    hide Unquad, Decoding, Encoding, Symbols, Unbroken, Taken;
    SymbolsAppend(Encoding(style, 19, x), Encoding(style', 19, y));
    SymbolsOfEncoding(style, 19, x);
    SymbolsOfEncoding(style', 19, y);
    DecodeUnbroken(x);
    DecodeUnbroken(y);
    DecodeAppend(Unbroken(x), Unbroken(y));
    NothingUnbroken(x);
    NothingUnbroken(y);
    AllTaken(Encoding(style, 19, x) + Encoding(style', 19, y));
  }

  lemma {:induction false} DecodeAppend(s: seq<byte>, t: seq<byte>)
    requires |s| % 4 == 0
    ensures Decoding(s + t) == Decoding(s) + Decoding(t)
  {
    hide Unquad;
    if s == [] {
      assert s + t == t;
    } else {
      DecodeAppend(s[4..], t);
      assert (s + t)[..4] == s[..4] && (s + t)[4..] == s[4..] + t;
    }
  }

  // ---- lines ----

  predicate Break(c: byte) {
    c == 13 || c == 10
  }

  /** Lines of at most 76 characters, where the first one has room for so many more. */
  predicate ShortLines(e: seq<byte>, room: nat) {
    if e == [] then true
    else if Break(e[0]) then ShortLines(e[1..], 76)
    else room > 0 && ShortLines(e[1..], room - 1)
  }

  /** There is a line end among any 77 consecutive bytes. */
  lemma {:induction false} NoLongLine(e: seq<byte>, room: nat, i: nat)
    requires ShortLines(e, room) && room <= 76 && i + 77 <= |e|
    ensures exists j :: i <= j < i + 77 && Break(e[j])
  {
    if i == 0 {
      var j := BreakWithin(e, room);
    } else {
      var rest := e[1..];
      NoLongLine(rest, if Break(e[0]) then 76 else room - 1, i - 1);
      var j :| i - 1 <= j < i + 76 && Break(rest[j]);
      assert Break(e[j + 1]);
    }
  }

  lemma {:induction false} BreakWithin(e: seq<byte>, room: nat) returns (j: nat)
    requires ShortLines(e, room) && room < |e|
    ensures j <= room && Break(e[j])
  {
    if Break(e[0]) {
      j := 0;
    } else {
      j := BreakWithin(e[1..], room - 1);
      j := j + 1;
    }
  }

  lemma QuadOnLine(x: seq<byte>, rest: seq<byte>, room: nat)
    requires 1 <= |x| <= 3 && room >= 4 && ShortLines(rest, room - 4)
    ensures ShortLines(Quad(x) + rest, room)
  {
    hide Letter;
    var q := Quad(x);
    forall i | 0 <= i < 4
      ensures !Break(q[i])
    {
      QuadIsNoBreak(x, i);
    }
    var e := q + rest;
    assert e[4..] == rest && e[1..][1..] == e[2..] && e[2..][1..] == e[3..] && e[3..][1..] == e[4..];
    assert ShortLines(e[3..], room - 3);
    assert ShortLines(e[2..], room - 2);
  }

  lemma QuadIsNoBreak(x: seq<byte>, i: nat)
    requires 1 <= |x| <= 3 && i < 4
    ensures !Break(Quad(x)[i])
  {
  }

  lemma NoLines(room: nat)
    ensures ShortLines([], room)
  {
  }

  lemma EolStartsLine(style: LineEnding, rest: seq<byte>)
    requires ShortLines(rest, 76)
    ensures ShortLines(Eol(style) + rest, 0)
  {
    var e := Eol(style) + rest;
    if style == CRLF {
      assert e[1..] == [10] + rest && e[1..][1..] == rest;
    } else {
      assert e[1..] == rest;
    }
  }

  /** No line of an encoding is longer than 76 characters. */
  lemma {:induction false} LinesAreShort(style: LineEnding, counter: nat, x: seq<byte>)
    requires counter <= 19
    ensures ShortLines(Encoding(style, counter, x), 4 * counter)
    decreases |x|
  {
    hide Quad, Eol, ShortLines;
    if x == [] {
      NoLines(4 * counter);
    } else {
      var k := if |x| < 3 then |x| else 3;
      var left := if counter == 0 then 19 else counter;
      var rest := Encoding(style, left - 1, x[k..]);
      LinesAreShort(style, left - 1, x[k..]);
      QuadOnLine(x[..k], rest, 4 * left);
      if counter == 0 {
        EolStartsLine(style, Quad(x[..k]) + rest);
        assert Eol(style) + Quad(x[..k]) + rest == Eol(style) + (Quad(x[..k]) + rest);
      } else {
        assert [] + Quad(x[..k]) + rest == Quad(x[..k]) + rest;
      }
    }
  }

  // ---- where lines end, and how ----

  lemma GroupStep(style: LineEnding, counter: nat, x: seq<byte>)
    requires x != []
    ensures var k := if |x| < 3 then |x| else 3;
            Encoding(style, counter, x) ==
            (if counter == 0 then Eol(style) else []) + Quad(x[..k]) + Encoding(style, (if counter == 0 then 19 else counter) - 1, x[k..])
    ensures var k := if |x| < 3 then |x| else 3; Unbroken(x) == Quad(x[..k]) + Unbroken(x[k..])
  {
    hide Quad, Eol;
  }

  lemma OneGroupMore(style: LineEnding, counter: nat, x: seq<byte>)
    requires x != []
    ensures var k := if |x| < 3 then |x| else 3;
            && (counter > 0 ==> Encoding(style, counter, x) == Quad(x[..k]) + Encoding(style, counter - 1, x[k..]))
            && (counter == 0 ==> Encoding(style, 0, x) == Eol(style) + Encoding(style, 19, x))
            && Unbroken(x) == Quad(x[..k]) + Unbroken(x[k..])
  {
    hide *;
    GroupStep(style, counter, x);
    GroupStep(style, 19, x);
    var k := if |x| < 3 then |x| else 3;
    assert [] + Quad(x[..k]) == Quad(x[..k]);
    Regroup(Eol(style), Quad(x[..k]), Encoding(style, 18, x[k..]));
  }

  lemma Nothing(style: LineEnding, counter: nat)
    ensures Encoding(style, counter, []) == [] && Unbroken([]) == []
  {
  }

  /** A line takes as many groups as still fit, and is ended if there are more: so all lines but the last
      have 19 groups. */
  lemma {:induction false} FullLines(style: LineEnding, counter: nat, x: seq<byte>)
    ensures Encoding(style, counter, x) ==
            if |x| <= 3 * counter then Unbroken(x)
            else Unbroken(x[..3 * counter]) + Eol(style) + Encoding(style, 19, x[3 * counter..])
    decreases |x|
  {
    hide *;
    Nothing(style, counter);
    if x != [] {
      OneGroupMore(style, counter, x);
      if counter == 0 {
        assert x[..0] == [] && x[0..] == x && [] + Eol(style) == Eol(style);
      } else if |x| <= 3 {
        FullLines(style, counter - 1, x[if |x| < 3 then |x| else 3..]);
      } else {
        FullLines(style, counter - 1, x[3..]);
        if |x| > 3 * counter {
          OneGroupMore(style, counter, x[..3 * counter]);
          LineSplit(x, counter);
          var a, b, c, d := Quad(x[..3]), Unbroken(x[3..3 * counter]), Eol(style), Encoding(style, 19, x[3 * counter..]);
          assert a + (b + c + d) == (a + b) + c + d;
        }
      }
    }
  }

  lemma LineSplit(x: seq<byte>, counter: nat)
    requires 0 < counter && |x| > 3 * counter
    ensures var line := x[..3 * counter];
            && line != [] && |line| >= 3 && line[..3] == x[..3] && line[3..] == x[3..3 * counter]
            && x[3..][..3 * (counter - 1)] == x[3..3 * counter] && x[3..][3 * (counter - 1)..] == x[3 * counter..]
  {
  }

  lemma {:induction false} UnbrokenLength(x: seq<byte>)
    ensures |Unbroken(x)| == 4 * ((|x| + 2) / 3)
    decreases |x|
  {
    hide Quad;
    if x != [] {
      UnbrokenLength(x[if |x| < 3 then |x| else 3..]);
    }
  }

  /** A CR is followed by LF, and a LF preceded by CR. */
  predicate Paired(e: seq<byte>, i: nat)
    requires i < |e|
  {
    (e[i] == 13 ==> i + 1 < |e| && e[i + 1] == 10) && (e[i] == 10 ==> i > 0 && e[i - 1] == 13)
  }

  /** The line ends are of this style: LF alone, CR alone, or CR and LF together. */
  ghost predicate EndsLike(style: LineEnding, e: seq<byte>) {
    match style
    case LF => 13 !in e
    case CR => 10 !in e
    case CRLF => forall i: nat :: i < |e| ==> Paired(e, i)
  }

  lemma EndsLikeBoth(style: LineEnding, a: seq<byte>, b: seq<byte>)
    requires EndsLike(style, a) && EndsLike(style, b)
    ensures EndsLike(style, a + b)
  {
    if style == CRLF {
      forall i: nat | i < |a + b|
        ensures Paired(a + b, i)
      {
        assert if i < |a| then Paired(a, i) else Paired(b, i - |a|);
      }
    }
  }

  lemma EolEnds(style: LineEnding)
    ensures EndsLike(style, Eol(style)) && EndsLike(style, []) && Eol(style) != []
    ensures forall i :: 0 <= i < |Eol(style)| ==> Break(Eol(style)[i])
  {
    var e := Eol(style);
    assert e == if style == CR then [13] else if style == LF then [10] else [13, 10];
    assert |e| == 1 || (e[0] == 13 && e[1] == 10);
  }

  lemma QuadEnds(style: LineEnding, x: seq<byte>)
    requires 1 <= |x| <= 3
    ensures EndsLike(style, Quad(x))
  {
    hide Quad;
    forall i | 0 <= i < 4
      ensures !Break(Quad(x)[i])
    {
      QuadIsNoBreak(x, i);
    }
  }

  /** Lines end as they should. */
  lemma {:induction false} LinesEnd(style: LineEnding, counter: nat, x: seq<byte>)
    ensures EndsLike(style, Encoding(style, counter, x))
    decreases |x|
  {
    hide Quad, Eol, EndsLike;
    EolEnds(style);
    if x != [] {
      var k := if |x| < 3 then |x| else 3;
      var left := (if counter == 0 then 19 else counter) - 1;
      LinesEnd(style, left, x[k..]);
      QuadEnds(style, x[..k]);
      var end := if counter == 0 then Eol(style) else [];
      EndsLikeBoth(style, end, Quad(x[..k]));
      EndsLikeBoth(style, end + Quad(x[..k]), Encoding(style, left, x[k..]));
    }
  }

  // ---- the codec ----

  lemma LetterInverse(c: byte)
    ensures Value(c) < 64 || Value(c) == BAD_VALUE
    ensures Value(c) < 64 ==> Letter(Value(c)) == c
  {
  }

  /** The entries of the encoding table. */
  function EncodeEntry(i: nat): (c: char)
    requires i < 64
    ensures c as int == Letter(i)
  {
    match i
    case 0 => 'A' case 1 => 'B' case 2 => 'C' case 3 => 'D' case 4 => 'E' case 5 => 'F' case 6 => 'G' case 7 => 'H'
    case 8 => 'I' case 9 => 'J' case 10 => 'K' case 11 => 'L' case 12 => 'M' case 13 => 'N' case 14 => 'O' case 15 => 'P'
    case 16 => 'Q' case 17 => 'R' case 18 => 'S' case 19 => 'T' case 20 => 'U' case 21 => 'V' case 22 => 'W' case 23 => 'X'
    case 24 => 'Y' case 25 => 'Z' case 26 => 'a' case 27 => 'b' case 28 => 'c' case 29 => 'd' case 30 => 'e' case 31 => 'f'
    case 32 => 'g' case 33 => 'h' case 34 => 'i' case 35 => 'j' case 36 => 'k' case 37 => 'l' case 38 => 'm' case 39 => 'n'
    case 40 => 'o' case 41 => 'p' case 42 => 'q' case 43 => 'r' case 44 => 's' case 45 => 't' case 46 => 'u' case 47 => 'v'
    case 48 => 'w' case 49 => 'x' case 50 => 'y' case 51 => 'z' case 52 => '0' case 53 => '1' case 54 => '2' case 55 => '3'
    case 56 => '4' case 57 => '5' case 58 => '6' case 59 => '7' case 60 => '8' case 61 => '9' case 62 => '+' case _ => '/'
  }

  class Coder {
    const encodeTable: array<byte>
    const decodeTable: array<byte>
    var eolStyle: LineEnding

    ghost predicate Valid()
      reads this, encodeTable, decodeTable
    {
      && encodeTable != decodeTable && encodeTable.Length == 64 && decodeTable.Length == 255
      && (forall v: nat :: v < 64 ==> encodeTable[v] == Letter(v))
      && forall c: byte :: c < 255 ==> decodeTable[c] == Value(c)
    }

    /** The decoding table is filled in with the help of the encoding table. */
    constructor ()
      ensures Valid() && eolStyle == LF && fresh(encodeTable) && fresh(decodeTable)
    {
      encodeTable := new byte[64](i requires 0 <= i < 64 => EncodeEntry(i) as int);
      decodeTable := new byte[255];
      eolStyle := LF;
      new;
      var i := 0;
      while i < 255
        modifies decodeTable
        invariant 0 <= i <= 255 && forall c :: 0 <= c < i ==> decodeTable[c] == BAD_VALUE
      {
        decodeTable[i] := BAD_VALUE;
        i := i + 1;
      }
      i := 0;
      while i < 64
        modifies decodeTable
        invariant 0 <= i <= 64
        invariant forall c: byte :: c < 255 ==> decodeTable[c] == if Value(c) < i then Value(c) else BAD_VALUE
      {
        forall c: byte | c < 255
          ensures c == Letter(i) <==> Value(c) == i
        {
          ValueOfLetter(i);
          LetterInverse(c);
        }
        decodeTable[encodeTable[i]] := i;
        i := i + 1;
      }
    }

    method SetLineEnding(style: LineEnding)
      requires Valid()
      modifies this`eolStyle
      ensures Valid() && eolStyle == style
    {
      eolStyle := style;
    }

    /** Writes a line end. */
    method WriteEol(out: OutStream)
      modifies out
      ensures out.written == old(out.written) + Eol(eolStyle)
    {
      match eolStyle
      case CR => out.Sputn([13]);
      case LF => out.Sputn([10]);
      case CRLF =>
        out.Sputn([13]);
        out.Sputn([10]);
    }

    /** The four characters of a group of one, two or three bytes. */
    method EncodeGroup(inbuf: seq<byte>) returns (outbuf: array<byte>)
      requires Valid() && 1 <= |inbuf| <= 3
      ensures fresh(outbuf) && outbuf[..] == Quad(inbuf)
    {
      hide Letter, Value, Quad, Or;
      QuadDigits(inbuf);
      JoinedBits(ByteOf(inbuf, 0), ByteOf(inbuf, 1));
      JoinedBits(ByteOf(inbuf, 1), ByteOf(inbuf, 2));
      var c1: byte, c2: byte := inbuf[0] / 4 * 4, inbuf[0] % 4;
      var c3: byte, c4: byte, c5: byte, c6: byte := 0, 0, 0, 0;
      if |inbuf| > 1 {
        c3, c4 := inbuf[1] / 16 * 16, inbuf[1] % 16;
      }
      if |inbuf| > 2 {
        c5, c6 := inbuf[2] / 64 * 64, inbuf[2] % 64;
      }
      var v0, v1, v2 := c1 / 4, Or((c2 as int) * 16, c3 / 16), Or((c4 as int) * 4, c5 / 64);
      outbuf := new byte[4](_ => PAD);
      outbuf[0] := encodeTable[v0];
      outbuf[1] := encodeTable[v1];
      if |inbuf| > 1 {
        outbuf[2] := encodeTable[v2];
      }
      if |inbuf| > 2 {
        outbuf[3] := encodeTable[c6];
      }
    }

    /** Encodes the whole input, a group of three bytes at a time. */
    method Encode(input: InStream, out: OutStream)
      requires Valid()
      modifies input, out
      ensures input.unread == []
      ensures out.written == old(out.written) + Encoding(eolStyle, 19, old(input.unread))
    {
      hide Quad, Eol, Letter, Value, Encoding;
      ghost var x := input.unread;
      var inbuf := input.Sgetn(3);
      var counter := 19;
      Begin(inbuf, input.unread, x);
      ghost var all := out.written + Encoding(eolStyle, 19, x);
      while |inbuf| != 0
        modifies input, out
        invariant |inbuf| <= 3 && counter <= 19 && (|inbuf| < 3 ==> input.unread == [])
        invariant all == out.written + Encoding(eolStyle, counter, inbuf + input.unread)
        decreases |inbuf| + |input.unread|
      {
        ghost var rest := input.unread;
        ghost var before := out.written;
        OneGroup(eolStyle, counter, inbuf, rest);
        if counter == 0 {
          counter := 19;
          WriteEol(out);
        }
        counter := counter - 1;
        var outbuf := EncodeGroup(inbuf);
        var full := |inbuf| == 3;
        out.Sputn(outbuf[..]);
        if !full {
          inbuf := [];
          break;
        }
        inbuf := input.Sgetn(3);
        Begin(inbuf, input.unread, rest);
      }
      assert inbuf + input.unread == [];
      NothingToEncode(eolStyle, counter);
    }

    /** Decodes four symbols in place. */
    method DecodeGroup(inbuf: array<byte>) returns (x: seq<byte>)
      requires Valid() && inbuf.Length == 4 && inbuf != encodeTable && inbuf != decodeTable
      requires forall i :: 0 <= i < 4 ==> inbuf[i] < 255
      modifies inbuf
      ensures x == Unquad(old(inbuf[..])) && forall i :: 0 <= i < 4 ==> inbuf[i] < 255
    {
      hide Letter, Or;
      var outsize := 3;
      if inbuf[3] == PAD {
        if inbuf[2] == PAD {
          outsize := 1;
        } else {
          outsize := 2;
        }
      }
      inbuf[0] := decodeTable[inbuf[0]];
      inbuf[1] := decodeTable[inbuf[1]];
      inbuf[2] := decodeTable[inbuf[2]];
      inbuf[3] := decodeTable[inbuf[3]];
      var c1, c2, c3 := (inbuf[0] as int) * 4 % 256, inbuf[1] / 16, (inbuf[1] as int) * 16 % 256;
      var c4, c5, c6 := inbuf[2] / 4, (inbuf[2] as int) * 64 % 256, inbuf[3];
      OrByte(c1, c2);
      OrByte(c3, c4);
      OrByte(c5, c6);
      x := [Or(c1, c2), Or(c3, c4), Or(c5, c6)][..outsize];
    }

    /** Takes the first byte of the input, which counts unless it is filler or padding. */
    method TakeFirst(input: InStream, inbuf: array<byte>) returns (status: nat, pos: nat)
      requires Valid() && inbuf.Length == 4 && inbuf != encodeTable && inbuf != decodeTable
      requires 255 !in input.unread && forall i :: 0 <= i < 4 ==> inbuf[i] < 255
      modifies input, inbuf
      ensures status == if old(input.unread) == [] then 0 else 1
      ensures status == 0 ==> input.unread == []
      ensures 255 !in input.unread && forall i :: 0 <= i < 4 ==> inbuf[i] < 255
      ensures pos <= status && inbuf[..pos] + Symbols(input.unread) == Taken(old(input.unread))
    {
      hide Value, Symbols, Taken;
      ghost var b := input.unread;
      pos := 0;
      var got := input.Sgetn(1);
      status := |got|;
      if status == 1 {
        inbuf[0] := got[0];
        if decodeTable[inbuf[0]] != BAD_VALUE {
          pos := 1;
        }
      }
      FirstTaken(b, inbuf[..pos], input.unread);
    }

    /** Takes the next byte of the input, which counts if it is a symbol. */
    method TakeOne(input: InStream, inbuf: array<byte>, pos: nat, ghost pending: seq<byte>)
      returns (status: nat, pos': nat, ghost pending': seq<byte>)
      requires Valid() && inbuf.Length == 4 && inbuf != encodeTable && inbuf != decodeTable
      requires pos < 4 && inbuf[..pos] == pending && 255 !in input.unread && forall i :: 0 <= i < 4 ==> inbuf[i] < 255
      modifies input, inbuf
      ensures status == if old(input.unread) == [] then 0 else 1
      ensures |input.unread| == |old(input.unread)| - status
      ensures 255 !in input.unread && forall i :: 0 <= i < 4 ==> inbuf[i] < 255
      ensures pos' <= pos + status && inbuf[..pos'] == pending'
      ensures pending' + Symbols(input.unread) == pending + Symbols(old(input.unread))
    {
      hide Value;
      pos', pending' := pos, pending;
      ghost var u := input.unread;
      var got := input.Sgetn(1);
      status := |got|;
      if status == 1 {
        inbuf[pos] := got[0];
        OneSymbol(pending, u);
      }
      assert inbuf[..pos] == pending;
      if (decodeTable[inbuf[pos]] != BAD_VALUE || inbuf[pos] == PAD) && status != 0 {
        pending' := pending + [u[0]];
        pos' := pos + 1;
      }
    }

    /** Decodes the whole input. It fails if the symbols do not make up groups of four, after
        writing what the whole groups give. */
    method Decode(input: InStream, out: OutStream) returns (failed: bool)
      requires Valid() && 255 !in input.unread
      modifies input, out
      ensures input.unread == []
      ensures failed <==> |Taken(old(input.unread))| % 4 != 0
      ensures out.written == old(out.written) + Decoding(Taken(old(input.unread)))
    {
      hide Letter, Or, Unquad, Symbols, Decoding, Taken, Value, Valid;
      NothingToDecode();
      ghost var b := input.unread;
      var inbuf := new byte[4](_ => 0);
      var status, pos := TakeFirst(input, inbuf);
      ghost var all, pending, groups := out.written + Decoding(Taken(b)), inbuf[..pos], 0;
      while status != 0
        modifies input, out, inbuf
        invariant 0 <= pos <= 4 && 0 <= status && inbuf[..pos] == pending && (status == 0 ==> input.unread == [] && pos < 4)
        invariant 255 !in input.unread && forall i :: 0 <= i < 4 ==> inbuf[i] < 255
        invariant all == out.written + Decoding(pending + Symbols(input.unread))
        invariant |Taken(b)| == 4 * groups + |pending + Symbols(input.unread)|
        decreases |input.unread|, status
      {
        if pos == 4 {
          WholeGroup(out.written, pending, Symbols(input.unread));
          pos, pending, groups := 0, [], groups + 1;
          assert inbuf[..] == inbuf[..4];
          var x := DecodeGroup(inbuf);
          out.Sputn(x);
        }
        status, pos, pending := TakeOne(input, inbuf, pos, pending);
      }
      failed := pos != 0;
    }
  }

  lemma OneSymbol(pending: seq<byte>, u: seq<byte>)
    requires u != []
    ensures Symbol(u[0]) ==>
              pending + Symbols(u) == pending + [u[0]] + Symbols(u[1..]) && |Symbols(u)| == 1 + |Symbols(u[1..])|
    ensures !Symbol(u[0]) ==> Symbols(u) == Symbols(u[1..])
  {
    hide Symbol;
    if Symbol(u[0]) {
      assert Symbols(u) == [u[0]] + Symbols(u[1..]);
    } else {
      assert Symbols(u) == [] + Symbols(u[1..]);
    }
  }

  lemma Begin(inbuf: seq<byte>, unread: seq<byte>, x: seq<byte>)
    requires if |x| >= 3 then inbuf == x[..3] && unread == x[3..] else inbuf == x && unread == []
    ensures inbuf + unread == x
  {
  }

  /** The next group of the input. */
  lemma OneGroup(style: LineEnding, counter: nat, inbuf: seq<byte>, rest: seq<byte>)
    requires 1 <= |inbuf| <= 3 && (|inbuf| < 3 ==> rest == [])
    ensures Encoding(style, counter, inbuf + rest) ==
            (if counter == 0 then Eol(style) else []) + Quad(inbuf) +
            Encoding(style, (if counter == 0 then 19 else counter) - 1, rest)
  {
    hide Quad, Eol;
    var x := inbuf + rest;
    var k := if |x| < 3 then |x| else 3;
    assert x[..k] == inbuf && x[k..] == rest;
  }

  lemma JoinedBits(a: byte, b: byte)
    ensures Or(a % 4 * 16, b / 16) == a % 4 * 16 + b / 16
    ensures Or(a % 16 * 4, b / 64) == a % 16 * 4 + b / 64
  {
    hide Or, Pow2;
    Pow2Small();
    OrApart(a % 4 * 16, b / 16, 4);
    OrApart(a % 16 * 4, b / 64, 2);
  }

  /** The first byte of the input counts unless it is padding. */
  lemma FirstTaken(b: seq<byte>, pending: seq<byte>, rest: seq<byte>)
    requires b == [] ==> pending == [] && rest == []
    requires b != [] ==> rest == b[1..] && pending == if Value(b[0]) != BAD_VALUE then [b[0]] else []
    ensures pending + Symbols(rest) == Taken(b)
  {
    hide Value;
    PadHasNoValue();
    if b != [] {
      OneSymbol([], b);
    }
  }

  lemma PadHasNoValue()
    ensures Value(PAD) == BAD_VALUE
  {
  }

  lemma NothingToEncode(style: LineEnding, counter: nat)
    ensures Encoding(style, counter, []) == []
  {
  }

  lemma NothingToDecode()
    ensures Symbols([]) == [] && forall s :: |s| < 4 ==> Decoding(s) == []
  {
  }

  lemma WholeGroup(written: seq<byte>, q: seq<byte>, left: seq<byte>)
    requires |q| == 4
    ensures written + Decoding(q + left) == written + Unquad(q) + Decoding([] + left)
  {
    hide Unquad;
    assert (q + left)[..4] == q && (q + left)[4..] == left == [] + left;
  }
}
