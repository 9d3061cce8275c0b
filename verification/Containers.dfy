/** Strings and vectors in dlib's format: the number of elements as an unsigned long, then the
    elements. An unsigned long may have another width where they are read than where they were
    written. */
module Containers {
  import opened Arith
  import opened IntFormat
  import opened Serialize
  import opened Streams

  function ULong(width: nat): IntType {
    IntType(width, false)
  }

  // ---- strings ----

  function EncodeString(s: seq<byte>): seq<byte>
    requires ByteCount(|s|) <= 8
  {
    Encode(|s|) + s
  }

  function DecodeString(width: nat, b: seq<byte>): Decoded<seq<byte>> {
    match Decode(ULong(width), b)
    case Bad(rest) => Bad(rest)
    case Good(n, rest) =>
      if n < 0 || |rest| < n then Bad([]) else Good(rest[..n], rest[n..])
  }

  /** A string is read back out of any longer input, if its length fits. */
  lemma StringRoundTrips(width: nat, s: seq<byte>, rest: seq<byte>)
    requires ULong(width).Ok() && ByteCount(|s|) <= 8
    ensures DecodeString(width, EncodeString(s) + rest) == Good(s, rest) <==> |s| < Pow256(width)
  {
    hide Decode, Encode;
    assert EncodeString(s) + rest == Encode(|s|) + (s + rest);
    UnpackPacked(ULong(width), |s|, s + rest);
    WrapFits(ULong(width), |s|);
  }

  /** An input that ends within the string is refused. */
  lemma TruncatedString(width: nat, s: seq<byte>, k: nat)
    requires ULong(width).Ok() && ByteCount(|s|) <= 8 && k < |EncodeString(s)|
    ensures DecodeString(width, EncodeString(s)[..k]).Bad?
  {
    hide Wrap;
    var n := |Encode(|s|)|;
    var b := EncodeString(s)[..k];
    if k < n {
      if k > 0 {
        assert b[0] == Encode(|s|)[0];
      }
    } else {
      assert b == Encode(|s|) + s[..k - n];
      UnpackPacked(ULong(width), |s|, s[..k - n]);
      WrapFits(ULong(width), |s|);
    }
  }

  method SerializeString(width: nat, s: seq<byte>, out: OutStream)
    requires ULong(width).Ok() && |s| < Pow256(width)
    modifies out
    ensures ByteCount(|s|) <= 8 && out.written == old(out.written) + Encode(|s|) + s
  {
    hide Encode;
    PackInt(ULong(width), |s|, out);
    out.Sputn(s);
  }

  method DeserializeString(width: nat, input: InStream) returns (failed: bool, s: seq<byte>)
    requires ULong(width).Ok()
    modifies input
    ensures DecodeString(width, old(input.unread)) == if failed then Bad(input.unread) else Good(s, input.unread)
  {
    hide Decode;
    var size;
    failed, size := UnpackInt(ULong(width), input);
    if failed {
      return true, [];
    }
    UnsignedSize(width, old(input.unread));
    s := [];
    if size != 0 {
      s := input.Sgetn(size);
      if |s| != size {
        return true, [];
      }
    }
  }

  lemma UnsignedSize(width: nat, b: seq<byte>)
    requires ULong(width).Ok()
    ensures var d := Decode(ULong(width), b); d.Good? ==> 0 <= d.value < Pow256(width)
  {
    hide Number;
    if Decode(ULong(width), b).Good? {
      var n: int := Number(b[1..1 + b[0] % 16]);
      WrapFits(ULong(width), n);
    }
  }

  // ---- vectors of bytes ----

  /** std::vector::resize: what there is stays, what is new is zero. */
  function Resized(was: seq<byte>, n: nat): (r: seq<byte>)
    ensures |r| == n
  {
    if n <= |was| then was[..n] else was + Zeros(n - |was|)
  }

  function Zeros(n: nat): (z: seq<byte>)
    ensures |z| == n
  {
    seq(n, _ => 0)
  }

  /** What std::vector<char> is read as, into a vector that held was: missing bytes are not noticed,
      and the resized vector keeps its own in their places. */
  function DecodeBytes(width: nat, b: seq<byte>, was: seq<byte>): Decoded<seq<byte>> {
    match Decode(ULong(width), b)
    case Bad(rest) => Bad(rest)
    case Good(n, rest) =>
      if n < 0 then Bad([])
      else if |rest| < n then Good(rest + Resized(was, n)[|rest|..], [])
      else Good(rest[..n], rest[n..])
  }

  /** An input that ends within the elements gives the vector back only if what is missing is what
      the resized vector has there already. */
  lemma TruncatedBytes(width: nat, s: seq<byte>, k: nat, was: seq<byte>)
    requires ULong(width).Ok() && |s| < Pow256(width) && ByteCount(|s|) <= 8 && k <= |s|
    ensures var d := DecodeBytes(width, Encode(|s|) + s[..k], was);
            && d == Good(s[..k] + Resized(was, |s|)[k..], [])
            && (d.value == s <==> s[k..] == Resized(was, |s|)[k..])
  {
    hide Decode, Encode, Wrap, Resized;
    UnpackPacked(ULong(width), |s|, s[..k]);
    WrapFits(ULong(width), |s|);
    SameEnd(s, Resized(was, |s|)[k..], k);
  }

  /** Into an empty vector, that is if what is missing is zero. */
  lemma TruncatedIntoEmpty(width: nat, s: seq<byte>, k: nat)
    requires ULong(width).Ok() && |s| < Pow256(width) && ByteCount(|s|) <= 8 && k <= |s|
    ensures DecodeBytes(width, Encode(|s|) + s[..k], []) == Good(s, []) <==> s[k..] == Zeros(|s| - k)
  {
    hide Decode, Encode, Pow256, ByteCount;
    TruncatedBytes(width, s, k, []);
    assert Resized([], |s|)[k..] == Zeros(|s| - k);
  }

  lemma SameEnd(s: seq<byte>, z: seq<byte>, k: nat)
    requires k <= |s| && |z| == |s| - k
    ensures s[..k] + z == s <==> s[k..] == z
    ensures k == |s| ==> s[..k] + z == s[..k] == s
  {
    assert s == s[..k] + s[k..];
    assert (s[..k] + z)[k..] == z;
  }

  /** deserialize of std::vector<char>, into a vector that held was. */
  method DeserializeBytes(width: nat, input: InStream, was: seq<byte>) returns (failed: bool, item: seq<byte>)
    requires ULong(width).Ok()
    modifies input
    ensures DecodeBytes(width, old(input.unread), was) == if failed then Bad(input.unread) else Good(item, input.unread)
    ensures failed ==> item == was
  {
    hide Decode, Resized;
    var size;
    item := was;
    failed, size := UnpackInt(ULong(width), input);
    if failed {
      return;
    }
    UnsignedSize(width, old(input.unread));
    item := Resized(item, size);
    if |item| != 0 {
      var read := input.Sgetn(size);
      ghost var resized := item;
      item := read + item[|read|..];
      assert item[|read|..] == resized[|read|..];
      assert |read| == size ==> item == read;
    } else {
      assert input.unread[..0] == item && input.unread[0..] == input.unread;
    }
  }

  // ---- vectors ----

  /** How values of an element type are written and read. */
  datatype Codec<!T> = Codec(ok: T -> bool, encode: T -> seq<byte>, decode: seq<byte> -> Decoded<T>)

  /** What is written is read back, whatever follows it. */
  ghost predicate RoundTrips<T(!new)>(c: Codec<T>) {
    forall x, rest :: c.ok(x) ==> c.decode(c.encode(x) + rest) == Good(x, rest)
  }

  function EncodeAll<T>(c: Codec<T>, xs: seq<T>): seq<byte> {
    if xs == [] then [] else c.encode(xs[0]) + EncodeAll(c, xs[1..])
  }

  function DecodeAll<T>(c: Codec<T>, n: nat, b: seq<byte>): Decoded<seq<T>> {
    if n == 0 then Good([], b)
    else
      match c.decode(b)
      case Bad(rest) => Bad(rest)
      case Good(x, rest) =>
        match DecodeAll(c, n - 1, rest)
        case Bad(rest') => Bad(rest')
        case Good(xs, rest') => Good([x] + xs, rest')
  }

  function DecodeVector<T>(c: Codec<T>, width: nat, b: seq<byte>): Decoded<seq<T>> {
    match Decode(ULong(width), b)
    case Bad(rest) => Bad(rest)
    case Good(n, rest) => if n < 0 then Bad([]) else DecodeAll(c, n, rest)
  }

  function EncodeVector<T>(c: Codec<T>, xs: seq<T>): seq<byte>
    requires ByteCount(|xs|) <= 8
  {
    Encode(|xs|) + EncodeAll(c, xs)
  }

  predicate AllOk<T>(c: Codec<T>, xs: seq<T>) {
    forall i :: 0 <= i < |xs| ==> c.ok(xs[i])
  }

  /** The elements come in order, each as it is encoded by itself. */
  lemma {:induction false} ElementsInOrder<T>(c: Codec<T>, xs: seq<T>, i: nat)
    requires i < |xs|
    ensures EncodeAll(c, xs) == EncodeAll(c, xs[..i]) + c.encode(xs[i]) + EncodeAll(c, xs[i + 1..])
  {
    if i == 0 {
      assert xs[..0] == [] && [] + c.encode(xs[0]) == c.encode(xs[0]);
    } else {
      ElementsInOrder(c, xs[1..], i - 1);
      assert xs[..i][1..] == xs[1..][..i - 1] && xs[1..][i..] == xs[i + 1..] && xs[..i][0] == xs[0];
      var a, b, d, e := c.encode(xs[0]), EncodeAll(c, xs[1..][..i - 1]), c.encode(xs[i]), EncodeAll(c, xs[i + 1..]);
      assert a + (b + d + e) == (a + b) + d + e;
    }
  }

  /** Vectors as elements of vectors. */
  function VectorCodec<T>(c: Codec<T>, width: nat): Codec<seq<T>> {
    Codec(xs => |xs| < Pow256(width) && ByteCount(|xs|) <= 8 && AllOk(c, xs),
          xs => if ByteCount(|xs|) <= 8 then EncodeVector(c, xs) else [],
          b => DecodeVector(c, width, b))
  }

  /** An integral type, read as the same or another one. */
  function IntCodec(written: IntType, read: IntType): Codec<int> {
    Codec(v => Fits(written, v) && Fits(read, v) && ByteCount(Magnitude(v)) <= 8,
          v => if ByteCount(Magnitude(v)) <= 8 then Encode(v) else [],
          b => Decode(read, b))
  }

  function StringCodec(width: nat): Codec<seq<byte>> {
    Codec(s => |s| < Pow256(width) && ByteCount(|s|) <= 8,
          s => if ByteCount(|s|) <= 8 then EncodeString(s) else [],
          b => DecodeString(width, b))
  }

  lemma IntsRoundTrip(written: IntType, read: IntType)
    requires read.Ok()
    ensures RoundTrips(IntCodec(written, read))
  {
    hide Decode, Encode;
    var c := IntCodec(written, read);
    forall x, rest | c.ok(x)
      ensures c.decode(c.encode(x) + rest) == Good(x, rest)
    {
      UnpackPacked(read, x, rest);
    }
  }

  lemma StringsRoundTrip(width: nat)
    requires ULong(width).Ok()
    ensures RoundTrips(StringCodec(width))
  {
    hide Decode, Encode, DecodeString, EncodeString;
    var c := StringCodec(width);
    forall x, rest | c.ok(x)
      ensures c.decode(c.encode(x) + rest) == Good(x, rest)
    {
      StringRoundTrips(width, x, rest);
    }
  }

  lemma {:induction false} ElementsRoundTrip<T(!new)>(c: Codec<T>, xs: seq<T>, rest: seq<byte>)
    requires RoundTrips(c) && AllOk(c, xs)
    ensures DecodeAll(c, |xs|, EncodeAll(c, xs) + rest) == Good(xs, rest)
  {
    if xs == [] {
      assert EncodeAll(c, xs) + rest == rest;
    } else {
      ElementsRoundTrip(c, xs[1..], rest);
      var rest' := EncodeAll(c, xs[1..]) + rest;
      assert EncodeAll(c, xs) + rest == c.encode(xs[0]) + rest';
      assert c.decode(c.encode(xs[0]) + rest') == Good(xs[0], rest');
      assert [xs[0]] + xs[1..] == xs;
    }
  }

  /** If elements are read back whatever follows them, so are vectors of them, to any depth. */
  lemma VectorsRoundTrip<T(!new)>(c: Codec<T>, width: nat)
    requires RoundTrips(c) && ULong(width).Ok()
    ensures RoundTrips(VectorCodec(c, width))
  {
    hide Decode, Encode, RoundTrips, EncodeAll, DecodeAll;
    var v := VectorCodec(c, width);
    forall xs, rest | v.ok(xs)
      ensures v.decode(v.encode(xs) + rest) == Good(xs, rest)
    {
      assert v.encode(xs) + rest == Encode(|xs|) + (EncodeAll(c, xs) + rest);
      UnpackPacked(ULong(width), |xs|, EncodeAll(c, xs) + rest);
      WrapFits(ULong(width), |xs|);
      ElementsRoundTrip(c, xs, rest);
    }
    RoundTripsIf(v);
  }

  lemma RoundTripsIf<T(!new)>(c: Codec<T>)
    requires forall x, rest :: c.ok(x) ==> c.decode(c.encode(x) + rest) == Good(x, rest)
    ensures RoundTrips(c)
  {
  }

  /** serialize of a vector of integers. */
  method SerializeVector(width: nat, t: IntType, xs: seq<int>, out: OutStream)
    requires ULong(width).Ok() && t.Ok() && |xs| < Pow256(width)
    requires forall i :: 0 <= i < |xs| ==> Fits(t, xs[i])
    modifies out
    ensures ByteCount(|xs|) <= 8 && out.written == old(out.written) + Encode(|xs|) + EncodeAll(IntCodec(t, t), xs)
  {
    hide Encode, EncodeAll;
    ghost var c := IntCodec(t, t);
    PackInt(ULong(width), |xs|, out);
    ghost var before := out.written;
    var i := 0;
    NothingMore(c, xs);
    while i < |xs|
      invariant 0 <= i <= |xs|
      invariant out.written + EncodeAll(c, xs[i..]) == before + EncodeAll(c, xs)
    {
      ghost var was := out.written;
      PackInt(t, xs[i], out);
      OneMoreElement(c, xs, i);
      assert c.encode(xs[i]) == Encode(xs[i]);
      assert was + (c.encode(xs[i]) + EncodeAll(c, xs[i + 1..])) == out.written + EncodeAll(c, xs[i + 1..]);
      i := i + 1;
    }
    assert out.written == before + EncodeAll(c, xs);
  }

  lemma NothingMore<T>(c: Codec<T>, xs: seq<T>)
    ensures EncodeAll(c, xs[|xs|..]) == [] && xs[0..] == xs
  {
  }

  lemma OneMoreElement<T>(c: Codec<T>, xs: seq<T>, i: nat)
    requires i < |xs|
    ensures EncodeAll(c, xs[i..]) == c.encode(xs[i]) + EncodeAll(c, xs[i + 1..])
  {
    assert xs[i..][1..] == xs[i + 1..];
  }

  /** deserialize of a vector of integers. */
  method DeserializeVector(width: nat, t: IntType, input: InStream) returns (failed: bool, item: array<int>)
    requires ULong(width).Ok() && t.Ok()
    modifies input
    ensures fresh(item)
    ensures DecodeVector(IntCodec(t, t), width, old(input.unread)) ==
            if failed then Bad(input.unread) else Good(item[..], input.unread)
  {
    hide Decode, DecodeAll;
    ghost var c := IntCodec(t, t);
    var size;
    failed, size := UnpackInt(ULong(width), input);
    if failed {
      item := new int[0];
      return;
    }
    UnsignedSize(width, old(input.unread));
    item := new int[size](_ => 0);
    ghost var b := input.unread;
    var i := 0;
    assert item[..0] == [];
    AllFrom(c, size, b);
    while i < size
      modifies item, input
      invariant 0 <= i <= size
      invariant DecodeAll(c, size, b) == After(item[..i], DecodeAll(c, size - i, input.unread))
    {
      DecodeOne(c, item[..i], size - i, input.unread);
      var x;
      failed, x := UnpackInt(t, input);
      if failed {
        return;
      }
      ghost var done := item[..i];
      item[i] := x;
      assert item[..i + 1] == done + [x];
      i := i + 1;
    }
    NoneLeft(c, item[..size], input.unread);
    assert item[..size] == item[..];
    failed := false;
  }

  /** What has been read already, put in front of an outcome. */
  function After<T>(done: seq<T>, d: Decoded<seq<T>>): Decoded<seq<T>> {
    match d
    case Bad(rest) => Bad(rest)
    case Good(xs, rest) => Good(done + xs, rest)
  }

  lemma AllFrom<T>(c: Codec<T>, n: nat, b: seq<byte>)
    ensures DecodeAll(c, n, b) == After([], DecodeAll(c, n, b))
  {
    hide DecodeAll;
    var d := DecodeAll(c, n, b);
    if d.Good? {
      assert [] + d.value == d.value;
    }
  }

  lemma DecodeOne<T>(c: Codec<T>, done: seq<T>, n: nat, b: seq<byte>)
    requires n > 0
    ensures After(done, DecodeAll(c, n, b)) ==
            match c.decode(b)
            case Bad(rest) => Bad(rest)
            case Good(x, rest) => After(done + [x], DecodeAll(c, n - 1, rest))
  {
    if c.decode(b).Good? {
      var d := DecodeAll(c, n - 1, c.decode(b).rest);
      if d.Good? {
        assert done + ([c.decode(b).value] + d.value) == done + [c.decode(b).value] + d.value;
      }
    }
  }

  lemma NoneLeft<T>(c: Codec<T>, done: seq<T>, b: seq<byte>)
    ensures After(done, DecodeAll(c, 0, b)) == Good(done, b)
  {
    assert done + [] == done;
  }
}
