/** Writing and reading integers in dlib's format: ser_helper::pack_int and unpack_int. */
module Serialize {
  import opened Arith
  import opened IntFormat
  import opened Streams

  lemma EncodeIs(v: int)
    requires ByteCount(Magnitude(v)) <= 8
    ensures var n := ByteCount(Magnitude(v));
            Encode(v) == [n + if v < 0 then 0x80 else 0] + Bytes(Magnitude(v), n)
  {
  }

  /** k bytes are still to be written: the item is the magnitude, less 256^k if negating it
      overflowed. */
  ghost predicate Shifted(m: nat, k: nat, over: bool, item: int) {
    m < Pow256(k) && item == (if over then m - Pow256(k) else m) && (over ==> 2 * m == Pow256(k))
  }

  lemma ShiftOut(m: nat, k: nat, over: bool, item: int)
    requires k >= 1 && Shifted(m, k, over, item)
    ensures item % 256 == m % 256
    ensures item / 256 == 0 ==> m < 256 && !over
    ensures k == 1 ==> m < 256 && (item / 256 == 0 <==> !over)
    ensures item / 256 != 0 && k > 1 ==> m >= 256 && Shifted(m / 256, k - 1, over, item / 256)
  {
    var d: int := if over then Pow256(k - 1) else 0;
    assert item == m + -d * 256;
    ModAdd(m, -d, 256);
    if over && k > 1 {
      PowAtLeast(k - 1);
    }
  }

  /** The bytes written so far, and what is left of the magnitude m. */
  ghost predicate SoFar(done: seq<byte>, rest: nat, m: nat) {
    ByteCount(m) == |done| + ByteCount(rest) && done + Bytes(rest, ByteCount(rest)) == Bytes(m, ByteCount(m))
  }

  lemma NothingWritten(m: nat)
    ensures SoFar([], m, m)
  {
    hide Bytes, ByteCount;
  }

  lemma OneByteMore(done: seq<byte>, rest: nat, m: nat)
    requires SoFar(done, rest, m)
    ensures var done' := done + [rest % 256];
            if rest < 256 then |done'| == ByteCount(m) && done' == Bytes(m, |done'|) else SoFar(done', rest / 256, m)
  {
    FirstByte(rest);
    hide Bytes, ByteCount;
    var tail := Bytes(rest / 256, ByteCount(rest) - 1);
    assert done + ([rest % 256] + tail) == done + [rest % 256] + tail;
  }

  lemma FirstByte(rest: nat)
    ensures ByteCount(rest) == 1 + if rest < 256 then 0 else ByteCount(rest / 256)
    ensures Bytes(rest, ByteCount(rest)) == [rest % 256] + Bytes(rest / 256, ByteCount(rest) - 1)
    ensures Bytes(rest / 256, 0) == []
  {
  }

  lemma StartShifting(t: IntType, v: int)
    requires t.Ok() && Fits(t, v)
    ensures ByteCount(Magnitude(v)) <= t.size
    ensures var item := if v < 0 then Wrap(t, -v) else v; Shifted(Magnitude(v), t.size, item < 0, item)
  {
    PowAtLeast(t.size);
    CountBounds(Magnitude(v), t.size);
    if v < 0 {
      DivModUnique(-v, Pow256(t.size), 0, -v);
    }
  }

  lemma NextSlice(a: array<byte>, from: nat, i: nat, was: seq<byte>, b: byte)
    requires from <= i < a.Length && a[from..i] == was && a[i] == b
    ensures a[from..i + 1] == was + [b]
  {
  }

  /** pack_int. */
  method PackInt(t: IntType, v: int, out: OutStream)
    requires t.Ok() && Fits(t, v)
    modifies out
    ensures ByteCount(Magnitude(v)) <= t.size && out.written == old(out.written) + Encode(v)
  {
    hide Bytes, ByteCount, Pow256, Encode, Wrap, Fits, Shifted, SoFar;
    var buf := new byte[9](_ => 0);
    var size := t.size;
    var neg := 0;
    var item := v;
    ghost var m: nat := Magnitude(v);
    StartShifting(t, v);
    if item < 0 {
      neg := 0x80;
      item := Wrap(t, -item);
    }
    ghost var over := item < 0;
    ghost var rest: nat := m;
    NothingWritten(m);
    var i := 1;
    assert buf[1..i] == [];
    while i <= t.size
      modifies buf
      invariant 1 <= i <= t.size + 1 && size == t.size
      invariant i <= t.size ==> Shifted(rest, t.size + 1 - i, over, item)
      invariant i <= t.size ==> SoFar(buf[1..i], rest, m)
      invariant i > t.size ==> size == ByteCount(m) && buf[1..size + 1] == Bytes(m, size)
    {
      ShiftOut(rest, t.size + 1 - i, over, item);
      OneByteMore(buf[1..i], rest, m);
      ghost var was := buf[1..i];
      buf[i] := item % 256;
      item := item / 256;
      NextSlice(buf, 1, i, was, rest % 256);
      if item == 0 {
        size := i;
        break;
      }
      rest := rest / 256;
      i := i + 1;
    }
    ghost var body := buf[1..size + 1];
    assert size == ByteCount(m) && body == Bytes(m, size);
    buf[0] := size + neg;
    assert buf[..size + 1] == [buf[0]] + body;
    out.Sputn(buf[..size + 1]);
    EncodeIs(v);
  }

  lemma {:induction false} AppendByte(t: IntType, b: byte, x: int)
    requires t.Ok()
    ensures Wrap(t, Wrap(t, x) * 256 + b) == Wrap(t, x * 256 + b)
    ensures Wrap(t, -Wrap(t, x)) == Wrap(t, -x)
  {
    hide Pow256, Wrap;
    var k := WrapLoss(t, x);
    WrapShift(t, Wrap(t, x) * 256 + b, k * 256);
    WrapShift(t, -Wrap(t, x), -k);
    Scaled(k, Pow256(t.size));
  }

  /** Storing loses a multiple of 256^size. */
  lemma WrapLoss(t: IntType, x: int) returns (k: int)
    requires t.Ok()
    ensures x == Wrap(t, x) + k * Pow256(t.size)
  {
    hide Pow256;
    var m := Pow256(t.size);
    k := x / m;
    if Wrap(t, x) != x % m {
      AddOne(k, m);
      k := k + 1;
    }
  }

  lemma AddOne(k: int, m: int)
    ensures (k + 1) * m == k * m + m
  {
  }

  lemma Scaled(k: int, m: int)
    ensures (k * 256) * m == (k * m) * 256 && -k * m == -(k * m)
  {
  }

  lemma WrapShift(t: IntType, x: int, k: int)
    requires t.Ok()
    ensures Wrap(t, x + k * Pow256(t.size)) == Wrap(t, x)
  {
    ModAdd(x, k, Pow256(t.size));
  }

  /** unpack_int: the item is built up from its most significant byte, in its type. */
  method UnpackInt(t: IntType, input: InStream) returns (failed: bool, item: int)
    requires t.Ok()
    modifies input
    ensures Decode(t, old(input.unread)) == if failed then Bad(input.unread) else Good(item, input.unread)
  {
    hide Wrap, Number, Pow256;
    item := 0;
    var ch := input.Sbumpc();
    if ch == -1 {
      return true, item;
    }
    var negative := ch >= 0x80;
    var size: nat := if t.signed then ch % 16 else if negative then 0x80 + ch % 16 else ch % 16;
    if size > t.size || size == 0 {
      return true, item;
    }
    ghost var b := old(input.unread);
    var buf := input.Sgetn(size);
    assert |b| >= 1 + size ==> buf == b[1..1 + size] && input.unread == b[1 + size..];
    if |buf| != size {
      return true, item;
    }
    var i := size;
    WrapNumber(t, buf, size);
    while i > 0
      modifies {}
      invariant 0 <= i <= size && item == Wrap(t, Number(buf[i..]))
    {
      i := i - 1;
      assert buf[i..][1..] == buf[i + 1..];
      NumberStep(buf[i..]);
      AppendByte(t, buf[i], Number(buf[i + 1..]));
      item := Wrap(t, item * 256 + buf[i]);
    }
    assert buf[0..] == buf;
    if negative {
      AppendByte(t, 0, Number(buf));
      item := Wrap(t, -item);
    }
    failed := false;
  }

  lemma WrapNumber(t: IntType, b: seq<byte>, n: nat)
    requires t.Ok() && n == |b|
    ensures Wrap(t, Number(b[n..])) == 0
  {
    hide Pow256;
    assert b[n..] == [];
    DivModUnique(0, Pow256(t.size), 0, 0);
  }

  lemma NumberStep(b: seq<byte>)
    requires b != []
    ensures Number(b) == Number(b[1..]) * 256 + b[0]
  {
  }
}
