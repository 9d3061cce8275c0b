/** What the JPEG bit reader is meant to deliver: the byte-stuffed entropy segment of
    ITU-T T.81 section B.1.1.5, seen as an endless stream of octets and of bits. */
module BitStream {
  import opened Arith

  /** The octets of the entropy segment: FF 00 stands for FF, and FF followed by anything
      else (or by nothing) ends the segment. */
  function Unstuff(b: seq<byte>): seq<byte> {
    if b == [] then []
    else if b[0] != 0xFF then [b[0]] + Unstuff(b[1..])
    else if |b| >= 2 && b[1] == 0 then [0xFF] + Unstuff(b[2..])
    else []
  }

  /** Whether the entropy segment is ended by an FF, rather than by the end of the input. */
  predicate EndsAtMarker(b: seq<byte>) {
    if b == [] then false
    else if b[0] != 0xFF then EndsAtMarker(b[1..])
    else if |b| >= 2 && b[1] == 0 then EndsAtMarker(b[2..])
    else true
  }

  /** The bytes that pad the end of the input: FF and D9 in turn, FF first if flag is 0. */
  function Pad(flag: nat, i: nat): byte {
    if (flag + i) % 2 == 0 then 0xFF else 0xD9
  }

  /** The octets delivered to the entropy decoder. */
  function Octet(b: seq<byte>, flag: nat, i: nat): byte {
    if i < |Unstuff(b)| then Unstuff(b)[i]
    else if EndsAtMarker(b) then 0xFF
    else Pad(flag, i - |Unstuff(b)|)
  }

  /** The bytes delivered to the marker parser, which does no un-stuffing. */
  function RawByte(b: seq<byte>, flag: nat, i: nat): byte {
    if i < |b| then b[i] else Pad(flag, i - |b|)
  }

  /** T.81 section B.1.1.5, the encoder's side: a zero follows every FF. */
  function Stuff(octets: seq<byte>): seq<byte> {
    if octets == [] then []
    else if octets[0] == 0xFF then [0xFF, 0] + Stuff(octets[1..])
    else [octets[0]] + Stuff(octets[1..])
  }

  /** Whatever was stuffed comes back, followed by ones for ever once a marker is reached. */
  lemma {:induction false} StuffedSegment(octets: seq<byte>, marker: seq<byte>, flag: nat, i: nat)
    requires |marker| >= 1 && marker[0] == 0xFF && (|marker| >= 2 ==> marker[1] != 0)
    ensures Octet(Stuff(octets) + marker, flag, i) == if i < |octets| then octets[i] else 0xFF
  {
    UnstuffStuff(octets, marker);
  }

  lemma {:induction false} UnstuffStuff(octets: seq<byte>, marker: seq<byte>)
    requires |marker| >= 1 && marker[0] == 0xFF && (|marker| >= 2 ==> marker[1] != 0)
    ensures Unstuff(Stuff(octets) + marker) == octets && EndsAtMarker(Stuff(octets) + marker)
  {
    var b := Stuff(octets) + marker;
    if octets == [] {
      assert b == marker;
    } else {
      UnstuffStuff(octets[1..], marker);
      if octets[0] == 0xFF {
        assert b[2..] == Stuff(octets[1..]) + marker;
      } else {
        assert b[1..] == Stuff(octets[1..]) + marker;
      }
      assert octets == [octets[0]] + octets[1..];
    }
  }

  /** The octets behind the segment are all FF just if a marker ends it; if the input ends without
      one, they are FF and D9 in turn. */
  lemma OnesNeedMarker(b: seq<byte>, flag: nat)
    ensures (forall i: nat :: i >= |Unstuff(b)| ==> Octet(b, flag, i) == 0xFF) <==> EndsAtMarker(b)
  {
    var n := |Unstuff(b)|;
    if !EndsAtMarker(b) {
      assert Octet(b, flag, n + 1) == Pad(flag, 1) && Octet(b, flag, n) == Pad(flag, 0);
    }
  }

  /** Empty input, for example. */
  lemma NoInputNoOnes()
    ensures !EndsAtMarker([]) && Octet([], 0, 0) == 0xFF && Octet([], 0, 1) == 0xD9
  {
  }

  // ---- one octet ----

  /** Past an unstuffed octet the stream goes on as before. */
  lemma {:induction false} OctetPlain(b: seq<byte>, flag: nat, i: nat)
    requires |b| >= 1 && b[0] != 0xFF
    ensures Octet(b, flag, 0) == b[0]
    ensures Octet(b[1..], flag, i) == Octet(b, flag, i + 1)
  {
    assert Unstuff(b) == [b[0]] + Unstuff(b[1..]);
  }

  lemma {:induction false} OctetStuffed(b: seq<byte>, flag: nat, i: nat)
    requires |b| >= 2 && b[0] == 0xFF && b[1] == 0
    ensures Octet(b, flag, 0) == 0xFF
    ensures Octet(b[2..], flag, i) == Octet(b, flag, i + 1)
  {
    assert Unstuff(b) == [0xFF] + Unstuff(b[2..]);
  }

  /** From octet k on, the stream f is what the entropy decoder gets from input b. */
  ghost predicate Entropy(f: nat -> byte, k: nat, b: seq<byte>, flag: nat) {
    forall i: nat {:trigger Octet(b, flag, i)} :: f(k + i) == Octet(b, flag, i)
  }

  /** From octet k on, the stream f is what the marker parser gets from input b. */
  ghost predicate Raw(f: nat -> byte, k: nat, b: seq<byte>, flag: nat) {
    forall i: nat {:trigger RawByte(b, flag, i)} :: f(k + i) == RawByte(b, flag, i)
  }

  lemma EntropyStep(f: nat -> byte, k: nat, b: seq<byte>, flag: nat, b': seq<byte>, flag': nat)
    requires Entropy(f, k, b, flag)
    requires forall i: nat :: Octet(b', flag', i) == Octet(b, flag, i + 1)
    ensures f(k) == Octet(b, flag, 0)
    ensures Entropy(f, k + 1, b', flag')
  {
    assert f(k + 0) == Octet(b, flag, 0);
    forall i: nat
      ensures f(k + 1 + i) == Octet(b', flag', i)
    {
      assert f(k + (i + 1)) == Octet(b, flag, i + 1);
    }
  }

  lemma PlainOctet(f: nat -> byte, k: nat, b: seq<byte>, flag: nat)
    requires Entropy(f, k, b, flag) && |b| >= 1 && b[0] != 0xFF
    ensures f(k) == b[0]
    ensures Entropy(f, k + 1, b[1..], flag)
  {
    forall i: nat
      ensures Octet(b[1..], flag, i) == Octet(b, flag, i + 1)
    {
      OctetPlain(b, flag, i);
    }
    OctetPlain(b, flag, 0);
    EntropyStep(f, k, b, flag, b[1..], flag);
  }

  lemma RawStep(f: nat -> byte, k: nat, b: seq<byte>, flag: nat)
    requires Raw(f, k, b, flag) && flag <= 1
    ensures f(k) == if b == [] then Pad(flag, 0) else b[0]
    ensures if b == [] then Raw(f, k + 1, b, 1 - flag) else Raw(f, k + 1, b[1..], flag)
  {
    assert f(k + 0) == RawByte(b, flag, 0);
    var b', flag' := if b == [] then b else b[1..], if b == [] then 1 - flag else flag;
    forall i: nat
      ensures f(k + 1 + i) == RawByte(b', flag', i)
    {
      assert f(k + (i + 1)) == RawByte(b, flag, i + 1);
    }
  }

  /** The n octets of a stream from octet k on. */
  ghost function Held(f: nat -> byte, k: nat, n: nat): (b: seq<byte>)
    ensures |b| == n && forall i: nat :: i < n ==> b[i] == f(k + i)
  {
    if n == 0 then [] else Held(f, k, n - 1) + [f(k + n - 1)]
  }

  lemma HeldBytes(f: nat -> byte, k: nat)
    ensures Held(f, k, 2) == [f(k), f(k + 1)] && Held(f, k, 3) == [f(k), f(k + 1), f(k + 2)]
    ensures Held(f, k, 4) == [f(k), f(k + 1), f(k + 2), f(k + 3)]
  {
  }

  lemma Fronts(b0: byte, b1: byte, b2: byte, b3: byte, u: seq<byte>)
    ensures [b0] + ([b1] + u) == [b0, b1] + u && [b0] + ([b1] + ([b2] + u)) == [b0, b1, b2] + u
    ensures [b0] + ([b1] + ([b2] + ([b3] + u))) == [b0, b1, b2, b3] + u
  {
  }

  /** Putting bytes back in front of the input. */
  lemma PushBack(f: nat -> byte, k: nat, n: nat, b: seq<byte>, flag: nat)
    requires Raw(f, k + n, b, flag)
    ensures Raw(f, k, Held(f, k, n) + b, flag)
  {
    forall i: nat
      ensures f(k + i) == RawByte(Held(f, k, n) + b, flag, i)
    {
      if i >= n {
        assert f(k + n + (i - n)) == RawByte(b, flag, i - n);
      }
    }
  }

  /** As long as no padding is involved, that restores the input. */
  lemma BackInPlace(s: Source, k: nat, n: nat)
    requires k + n <= |s.bytes| && s.flag <= 1
    ensures Held(RawStream(s.bytes, s.flag), k, n) + AfterBytes(s, k + n).bytes == s.bytes[k..]
    ensures AfterBytes(s, k + n).flag == s.flag
  {
    BytesLeft(s, k + n);
  }

  // ---- what is left of the input ----

  /** Input that is still to be read: its bytes, and which padding byte comes behind them. */
  datatype Source = Source(bytes: seq<byte>, flag: nat)

  /** The input behind the next byte. */
  function AfterByte(s: Source): Source {
    if s.bytes == [] then Source([], (s.flag + 1) % 2) else Source(s.bytes[1..], s.flag)
  }

  /** The input behind the next octet of an entropy segment. A marker stays; if only its FF is
      there, looking for the second byte uses up a padding byte. */
  function AfterOctet(s: Source): Source {
    if s.bytes == [] || s.bytes[0] != 0xFF then AfterByte(s)
    else if |s.bytes| == 1 then Source(s.bytes, (s.flag + 1) % 2)
    else if s.bytes[1] == 0 then Source(s.bytes[2..], s.flag)
    else s
  }

  function AfterBytes(s: Source, k: nat): Source {
    if k == 0 then s else AfterByte(AfterBytes(s, k - 1))
  }

  function AfterOctets(s: Source, k: nat): Source {
    if k == 0 then s else AfterOctet(AfterOctets(s, k - 1))
  }

  lemma TwoBytes(s: Source, k: nat)
    ensures AfterBytes(s, k + 2) == AfterByte(AfterByte(AfterBytes(s, k)))
  {
    assert AfterBytes(s, k + 2) == AfterByte(AfterBytes(s, k + 1));
  }

  lemma TwoOctets(s: Source, k: nat)
    ensures AfterOctets(s, k + 2) == AfterOctet(AfterOctet(AfterOctets(s, k)))
  {
    assert AfterOctets(s, k + 2) == AfterOctet(AfterOctets(s, k + 1));
  }

  lemma FourBytes(s: Source)
    ensures AfterBytes(s, 4) == AfterByte(AfterByte(AfterByte(AfterByte(s))))
  {
    TwoBytes(s, 2);
    TwoBytes(s, 0);
  }

  lemma FourOctets(s: Source)
    ensures AfterOctets(s, 4) == AfterOctet(AfterOctet(AfterOctet(AfterOctet(s))))
  {
    TwoOctets(s, 2);
    TwoOctets(s, 0);
  }

  lemma {:induction false} BytesLeft(s: Source, k: nat)
    requires s.flag <= 1
    ensures AfterBytes(s, k) == if k <= |s.bytes| then Source(s.bytes[k..], s.flag) else Source([], (s.flag + (k - |s.bytes|)) % 2)
  {
    if k > 0 {
      BytesLeft(s, k - 1);
    }
  }

  /** Behind a stuffed segment the input begins with the marker that ends it, however many octets
      have been asked for. */
  lemma {:induction false} StuffedRest(octets: seq<byte>, marker: seq<byte>, flag: nat, k: nat)
    requires |marker| >= 2 && marker[0] == 0xFF && marker[1] != 0
    ensures AfterOctets(Source(Stuff(octets) + marker, flag), k) ==
            Source(Stuff(if k <= |octets| then octets[k..] else []) + marker, flag)
  {
    if k == 0 {
      assert octets[0..] == octets;
    } else {
      StuffedRest(octets, marker, flag, k - 1);
      hide Stuff, AfterOctet;
      OneOctet(if k - 1 <= |octets| then octets[k - 1..] else [], marker, flag);
    }
  }

  lemma OneOctet(rest: seq<byte>, marker: seq<byte>, flag: nat)
    requires |marker| >= 2 && marker[0] == 0xFF && marker[1] != 0
    ensures AfterOctet(Source(Stuff(rest) + marker, flag)) ==
            Source(Stuff(if rest == [] then [] else rest[1..]) + marker, flag)
  {
    if rest == [] {
      assert [] + marker == marker;
    } else {
      var b := Stuff(rest) + marker;
      if rest[0] == 0xFF {
        assert b[2..] == Stuff(rest[1..]) + marker;
      } else {
        assert b[1..] == Stuff(rest[1..]) + marker;
      }
    }
  }

  // ---- bits ----

  /** (c1 << 8) | c2 */
  function Word(c1: int, c2: int): int {
    256 * c1 + c2
  }

  /** Bit i of a stream of octets, the most significant bit of an octet first. */
  function Bit(f: nat -> byte, i: nat): (r: nat)
    ensures r <= 1
  {
    f(i / 8) / Pow2(7 - i % 8) % 2
  }

  /** The n bits from position pos on, as a number. */
  function Window(f: nat -> byte, pos: nat, n: nat): (r: nat)
    ensures r < Pow2(n)
  {
    if n == 0 then 0 else 2 * Window(f, pos, n - 1) + Bit(f, pos + n - 1)
  }

  lemma {:induction false} WindowSplit(f: nat -> byte, pos: nat, a: nat, b: nat)
    ensures Window(f, pos, a + b) == Window(f, pos, a) * Pow2(b) + Window(f, pos + a, b)
  {
    hide Pow2, Bit;
    if b == 0 {
      assert Pow2(b) == 1 by { Pow2Small(); }
    } else {
      WindowSplit(f, pos, a, b - 1);
      WindowStep(f, pos, a + b);
      WindowStep(f, pos + a, b);
      Pow2Double(b - 1);
      MulDouble(Window(f, pos, a), Pow2(b - 1), Pow2(b));
    }
  }

  lemma WindowStep(f: nat -> byte, pos: nat, n: nat)
    requires n > 0
    ensures Window(f, pos, n) == 2 * Window(f, pos, n - 1) + Bit(f, pos + n - 1)
  {
  }

  lemma WindowNone(f: nat -> byte, pos: nat)
    ensures Window(f, pos, 0) == 0
  {
  }

  /** The leading a bits of a window. */
  lemma WindowPrefix(f: nat -> byte, pos: nat, a: nat, b: nat)
    ensures Window(f, pos, a + b) / Pow2(b) == Window(f, pos, a)
    ensures Window(f, pos, a + b) % Pow2(b) == Window(f, pos + a, b)
  {
    WindowSplit(f, pos, a, b);
    DivModUnique(Window(f, pos, a + b), Pow2(b), Window(f, pos, a), Window(f, pos + a, b));
  }

  /** A window that covers one whole octet. */
  lemma WindowOctet(f: nat -> byte, k: nat)
    ensures Window(f, 8 * k, 8) == f(k)
  {
    hide Pow2, Window;
    Pow2Small();
    WindowWithinOctet(f, k, 8);
  }

  lemma {:induction false} WindowWithinOctet(f: nat -> byte, k: nat, n: nat)
    requires n <= 8
    ensures Window(f, 8 * k, n) == f(k) / Pow2(8 - n)
  {
    hide Pow2;
    if n == 0 {
      Pow2Small();
    } else {
      WindowWithinOctet(f, k, n - 1);
      var i := 8 * k + n - 1;
      assert i / 8 == k && i % 8 == n - 1;
      HalveQuotient(f(k), Pow2(8 - n));
      Pow2Double(8 - n);
    }
  }

  lemma HalveQuotient(c: nat, d: nat)
    requires d > 0
    ensures c / d == 2 * (c / (2 * d)) + c / d % 2
  {
    var q, r := c / (2 * d), c % (2 * d);
    assert c == q * (2 * d) + r;
    MulDouble(q, d, 2 * d);
    if r < d {
      DivModUnique(c, d, 2 * q, r);
    } else {
      DivModUnique(c, d, 2 * q + 1, r - d);
    }
  }

  lemma WindowTwoOctets(f: nat -> byte, k: nat)
    ensures Window(f, 8 * k, 16) == Word(f(k), f(k + 1))
  {
    Pow2Small();
    WindowSplit(f, 8 * k, 8, 8);
    WindowOctet(f, k);
    WindowOctet(f, k + 1);
    assert 8 * k + 8 == 8 * (k + 1);
  }

  /** A stream seen from k octets further on. */
  lemma {:induction false} WindowShift(f: nat -> byte, g: nat -> byte, k: nat, pos: nat, n: nat)
    requires forall i: nat :: g(i) == f(i + k)
    ensures Window(g, pos, n) == Window(f, pos + 8 * k, n)
  {
    hide Pow2, Bit;
    if n != 0 {
      WindowShift(f, g, k, pos, n - 1);
      BitShift(f, g, k, pos + n - 1);
    }
  }

  lemma BitShift(f: nat -> byte, g: nat -> byte, k: nat, i: nat)
    requires forall i: nat :: g(i) == f(i + k)
    ensures Bit(g, i) == Bit(f, i + 8 * k)
  {
    hide Pow2;
    assert (i + 8 * k) / 8 == i / 8 + k && (i + 8 * k) % 8 == i % 8;
  }

  /** Four octets that make up a 32-bit number. */
  lemma WindowFourOctets(f: nat -> byte, k: nat, n: nat)
    requires n == Word(Word(f(k), f(k + 1)), 0) * 256 + Word(f(k + 2), f(k + 3))
    ensures Window(f, 8 * k, 32) == n
  {
    hide Window;
    Pow2Small();
    WindowSplit(f, 8 * k, 16, 16);
    WindowTwoOctets(f, k);
    WindowTwoOctets(f, k + 2);
    assert 8 * k + 16 == 8 * (k + 2);
  }

  // ---- the 32-bit buffer: v valid bits at the top, zeros below ----

  function Buffer(f: nat -> byte, pos: nat, v: nat): nat
    requires v <= 32
  {
    Window(f, pos, v) * Pow2(32 - v)
  }

  lemma BufferIs32Bits(f: nat -> byte, pos: nat, v: nat)
    requires v <= 32
    ensures Buffer(f, pos, v) < 0x1_0000_0000
  {
    Pow2Large();
    Pow2Add(v, 32 - v);
    MulStrict(Window(f, pos, v), Pow2(v), Pow2(32 - v));
  }

  /** The buffer with its first n bits set apart. */
  lemma BufferParts(f: nat -> byte, pos: nat, v: nat, n: nat)
    requires n <= v <= 32
    ensures Window(f, pos + n, v - n) * Pow2(32 - v) < Pow2(32 - n)
    ensures Buffer(f, pos, v) == Window(f, pos, n) * Pow2(32 - n) + Window(f, pos + n, v - n) * Pow2(32 - v)
  {
    hide Window, Pow2;
    WindowSplit(f, pos, n, v - n);
    Pow2Add(v - n, 32 - v);
    MulSum(Window(f, pos, n), Pow2(v - n), Window(f, pos + n, v - n), Pow2(32 - v), Pow2(32 - n));
    MulStrict(Window(f, pos + n, v - n), Pow2(v - n), Pow2(32 - v));
  }

  /** m_bit_buf >> (32 - n) */
  lemma BufferTop(f: nat -> byte, pos: nat, v: nat, n: nat)
    requires n <= v <= 32
    ensures Buffer(f, pos, v) / Pow2(32 - n) == Window(f, pos, n)
  {
    hide Pow2, Window;
    BufferParts(f, pos, v, n);
    DivModUnique(Buffer(f, pos, v), Pow2(32 - n), Window(f, pos, n), Window(f, pos + n, v - n) * Pow2(32 - v));
  }

  /** A 32-bit number shifted left. */
  function ShiftLeft(b: nat, n: nat): (r: nat)
    ensures r < 0x1_0000_0000
  {
    b * Pow2(n) % 0x1_0000_0000
  }

  /** m_bit_buf <<= n */
  lemma BufferShift(f: nat -> byte, pos: nat, v: nat, n: nat)
    requires n <= v <= 32
    ensures ShiftLeft(Buffer(f, pos, v), n) == Buffer(f, pos + n, v - n)
  {
    hide Pow2, Window;
    var w, y := Window(f, pos, n), Window(f, pos + n, v - n) * Pow2(32 - v);
    BufferParts(f, pos, v, n);
    Pow2Add(32 - n, n);
    Pow2Add(32 - v, n);
    Pow2Large();
    MulSum(w, Pow2(32 - n), y, Pow2(n), Pow2(32));
    assert y * Pow2(n) == Buffer(f, pos + n, v - n) by {
      MulAssoc(Window(f, pos + n, v - n), Pow2(32 - v), Pow2(n));
    }
    BufferIs32Bits(f, pos + n, v - n);
    DivModUnique(Buffer(f, pos, v) * Pow2(n), 0x1_0000_0000, w, y * Pow2(n));
  }

  /** Sixteen valid bits at the top take two more octets in below them. */
  lemma BufferRefill(f: nat -> byte, pos: nat, k: nat)
    requires pos + 16 == 8 * k
    ensures Buffer(f, pos, 16) % 0x1_0000 == 0
    ensures Buffer(f, pos, 16) + Word(f(k), f(k + 1)) == Buffer(f, pos, 32)
  {
    hide Pow2, Window;
    Pow2Small();
    WindowTwoOctets(f, k);
    WindowSplit(f, pos, 16, 16);
  }

  /** (m_bit_buf >> (24 - 8 * j)) & 0xFF */
  lemma BufferByte(f: nat -> byte, k: nat, v: nat, j: nat)
    requires 8 * (j + 1) <= v <= 32
    ensures Buffer(f, 8 * k, v) / Pow2(24 - 8 * j) % 256 == f(k + j)
  {
    hide Window, Pow2, Buffer;
    Pow2Small();
    BufferTop(f, 8 * k, v, 8 * (j + 1));
    WindowPrefix(f, 8 * k, 8 * j, 8);
    WindowOctet(f, k + j);
    assert 8 * k + 8 * j == 8 * (k + j);
  }

  /** The stream that a freshly primed reader delivers: four arbitrary octets that are
      already in the buffer, then what the input gives. */
  function Primed(buf: nat, rest: nat -> byte): nat -> byte
    requires buf < 0x1_0000_0000
  {
    i => if i == 0 then buf / 0x100_0000
         else if i == 1 then buf / 0x1_0000 % 256
         else if i == 2 then buf / 256 % 256
         else if i == 3 then buf % 256
         else rest(i - 4)
  }

  lemma PrimedBuffer(buf: nat, rest: nat -> byte)
    requires buf < 0x1_0000_0000
    ensures Buffer(Primed(buf, rest), 0, 32) == buf
  {
    hide Window, Pow2;
    Pow2Small();
    WindowFourOctets(Primed(buf, rest), 0, buf);
  }

  /** Counting octets from k octets further on changes nothing in the buffer. */
  lemma BufferFrom(f: nat -> byte, g: nat -> byte, k: nat, pos: nat, v: nat)
    requires v <= 32
    requires forall i: nat :: g(i) == f(i + k)
    ensures Buffer(g, pos, v) == Buffer(f, pos + 8 * k, v)
  {
    hide Window, Pow2;
    WindowShift(f, g, k, pos, v);
  }

  /** Everything the entropy decoder gets from input b. */
  function EntropyStream(b: seq<byte>, flag: nat): nat -> byte {
    i => Octet(b, flag, i)
  }

  /** Everything the marker parser gets from input b. */
  function RawStream(b: seq<byte>, flag: nat): nat -> byte {
    i => RawByte(b, flag, i)
  }

  /** Dropping the four octets a primed reader began with. */
  lemma DropPrimer(buf: nat, rest: nat -> byte, k: nat, pos: nat, v: nat, b: seq<byte>, flag: nat)
    requires buf < 0x1_0000_0000 && v <= 32 && k >= 4
    ensures Buffer(rest, pos, v) == Buffer(Primed(buf, rest), pos + 32, v)
    ensures Entropy(Primed(buf, rest), k, b, flag) ==> Entropy(rest, k - 4, b, flag)
    ensures Raw(Primed(buf, rest), k, b, flag) ==> Raw(rest, k - 4, b, flag)
  {
    hide Window, Pow2, Buffer, Octet, RawByte;
    BufferFrom(Primed(buf, rest), rest, 4, pos, v);
    if Entropy(Primed(buf, rest), k, b, flag) {
      forall i: nat
        ensures rest(k - 4 + i) == Octet(b, flag, i)
      {
        assert Primed(buf, rest)(k + i) == Octet(b, flag, i);
      }
    }
    if Raw(Primed(buf, rest), k, b, flag) {
      forall i: nat
        ensures rest(k - 4 + i) == RawByte(b, flag, i)
      {
        assert Primed(buf, rest)(k + i) == RawByte(b, flag, i);
      }
    }
  }

  lemma PrimedFollows(buf: nat, b: seq<byte>, flag: nat)
    requires buf < 0x1_0000_0000
    ensures Entropy(Primed(buf, EntropyStream(b, flag)), 4, b, flag)
    ensures Raw(Primed(buf, RawStream(b, flag)), 4, b, flag)
  {
    hide Octet, RawByte;
  }
}
