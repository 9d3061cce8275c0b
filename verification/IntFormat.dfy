/** dlib's variable-length integer format: a control byte with the sign and the number of bytes,
    then the magnitude, least significant byte first. */
module IntFormat {
  import opened Arith

  /** An integral type: its width in bytes, and whether it is signed. */
  datatype IntType = IntType(size: nat, signed: bool) {
    predicate Ok() {
      1 <= size <= 8
    }
  }

  function Pow256(k: nat): (r: nat)
    ensures r > 0
  {
    if k == 0 then 1 else 256 * Pow256(k - 1)
  }

  /** The values of the type. */
  predicate Fits(t: IntType, v: int) {
    if t.signed then -(Pow256(t.size) as int) <= 2 * v < Pow256(t.size) else 0 <= v < Pow256(t.size)
  }

  /** What becomes of a number that is stored in the type: it is reduced to the width. */
  function Wrap(t: IntType, x: int): int {
    var m := Pow256(t.size);
    var r := x % m;
    if t.signed && 2 * r >= m then r - m else r
  }

  // ---- the format ----

  /** How many bytes a magnitude takes, at least one. */
  function ByteCount(m: nat): (n: nat)
    ensures n >= 1
  {
    if m < 256 then 1 else 1 + ByteCount(m / 256)
  }

  /** The lowest n bytes of a number, least significant first. */
  function Bytes(m: nat, n: nat): (b: seq<byte>)
    ensures |b| == n
  {
    if n == 0 then [] else [m % 256] + Bytes(m / 256, n - 1)
  }

  /** The number that bytes stand for. */
  function Number(b: seq<byte>): nat {
    if b == [] then 0 else b[0] + 256 * Number(b[1..])
  }

  function Magnitude(v: int): nat {
    if v < 0 then -v else v
  }

  /** The encoding of an integer. It does not depend on the type. */
  function Encode(v: int): (b: seq<byte>)
    requires ByteCount(Magnitude(v)) <= 8
  {
    var n := ByteCount(Magnitude(v));
    [n + if v < 0 then 0x80 else 0] + Bytes(Magnitude(v), n)
  }

  /** The outcome of decoding, and what is left of the input after it. */
  datatype Decoded<T> = Bad(rest: seq<byte>) | Good(value: T, rest: seq<byte>)

  /** Decoding an integer of a given type: the reserved bits 0x70 of the control byte are ignored. */
  function Decode(t: IntType, b: seq<byte>): Decoded<int> {
    if b == [] then Bad([])
    else
      var n: nat, negative := b[0] % 16, b[0] >= 0x80;
      if n == 0 || n > t.size || (negative && !t.signed) then Bad(b[1..])
      else if |b| < 1 + n then Bad([])
      else
        var m: int := Number(b[1..1 + n]);
        Good(Wrap(t, if negative then -m else m), b[1 + n..])
  }

  // ---- the format round-trips ----

  lemma {:induction false} NumberOfBytes(m: nat)
    ensures Number(Bytes(m, ByteCount(m))) == m
  {
    var n := ByteCount(m);
    assert Bytes(m, n)[1..] == Bytes(m / 256, n - 1);
    if m >= 256 {
      NumberOfBytes(m / 256);
    } else {
      assert Number(Bytes(m / 256, 0)) == 0;
    }
  }

  lemma {:induction false} CountBounds(m: nat, n: nat)
    requires n >= 1
    ensures ByteCount(m) <= n <==> m < Pow256(n)
  {
    if m >= 256 && n > 1 {
      CountBounds(m / 256, n - 1);
    } else if n > 1 {
      PowAtLeast(n);
    } else {
      assert Pow256(1) == 256;
    }
  }

  lemma {:induction false} PowAtLeast(n: nat)
    requires n >= 1
    ensures Pow256(n) >= 256 && Pow256(n) % 2 == 0
  {
    if n > 1 {
      PowAtLeast(n - 1);
    }
  }

  lemma {:induction false} PowMonotone(a: nat, b: nat)
    requires a <= b
    ensures Pow256(a) <= Pow256(b)
  {
    if a < b {
      PowMonotone(a, b - 1);
    }
  }

  lemma WrapFits(t: IntType, x: int)
    requires t.Ok()
    ensures Fits(t, Wrap(t, x)) && (Wrap(t, x) == x <==> Fits(t, x))
  {
    PowAtLeast(t.size);
    var m := Pow256(t.size);
    if Fits(t, x) {
      if x < 0 {
        DivModUnique(x, m, -1, x + m);
      } else {
        DivModUnique(x, m, 0, x);
      }
    }
  }

  lemma {:induction false} ByteAt(m: nat, n: nat, i: nat)
    requires i < n
    ensures Bytes(m, n)[i] == m / Pow256(i) % 256
  {
    if i > 0 {
      ByteAt(m / 256, n - 1, i - 1);
      DivDiv(m, 256, Pow256(i - 1), Pow256(i));
    }
  }

  /** The format: a control byte with the number of bytes, as few as the magnitude takes, and the sign in
      its highest bit; then the bytes of the magnitude, the least significant one first. */
  lemma EncodeLayout(v: int)
    requires ByteCount(Magnitude(v)) <= 8
    ensures var m, b := Magnitude(v), Encode(v);
            var n := |b| - 1;
            && 1 <= n <= 8 && m < Pow256(n) && (n > 1 ==> Pow256(n - 1) <= m)
            && b[0] % 16 == n && b[0] / 16 == (if v < 0 then 8 else 0)
            && forall i: nat :: i < n ==> b[1 + i] == m / Pow256(i) % 256
  {
    var m := Magnitude(v);
    var n := ByteCount(m);
    CountBounds(m, n);
    if n > 1 {
      CountBounds(m, n - 1);
    }
    forall i: nat | i < n
      ensures Encode(v)[1 + i] == m / Pow256(i) % 256
    {
      ByteAt(m, n, i);
    }
  }

  /** An integer that was packed as any type, unpacked as type t out of any longer input. It fails
      exactly if t has too few bytes for the magnitude, or is unsigned and the value negative;
      otherwise just the bytes written are consumed, and the value is right exactly if t has it. */
  lemma UnpackPacked(t: IntType, v: int, rest: seq<byte>)
    requires t.Ok() && ByteCount(Magnitude(v)) <= 8
    ensures var d := Decode(t, Encode(v) + rest);
            && (d.Good? <==> Magnitude(v) < Pow256(t.size) && (t.signed || v >= 0))
            && (d.Good? ==> d == Good(Wrap(t, v), rest))
            && (d == Good(v, rest) <==> Fits(t, v))
  {
    hide Wrap;
    var n := ByteCount(Magnitude(v));
    var b := Encode(v) + rest;
    CountBounds(Magnitude(v), t.size);
    assert b[1..1 + n] == Bytes(Magnitude(v), n);
    assert b[1 + n..] == rest;
    NumberOfBytes(Magnitude(v));
    assert b[0] % 16 == n;
    WrapFits(t, v);
  }

  /** Unpacking a value that does not fit, though it has few enough bytes, is not noticed. */
  lemma SilentlyWrong(rest: seq<byte>)
    ensures Decode(IntType(2, true), Encode(40000) + rest) == Good(-25536, rest)
  {
    assert ByteCount(40000) == 2 by { assert ByteCount(156) == 1; }
    UnpackPacked(IntType(2, true), 40000, rest);
    assert Pow256(2) == 0x1_0000;
  }

  /** No encoding is the beginning of another one. */
  lemma EncodingsDiffer(u: int, v: int, rest: seq<byte>, rest': seq<byte>)
    requires ByteCount(Magnitude(u)) <= 8 && ByteCount(Magnitude(v)) <= 8
    requires Encode(u) + rest == Encode(v) + rest'
    ensures u == v && rest == rest'
  {
    hide Wrap;
    var b := Encode(u) + rest;
    assert b[0] == Encode(u)[0] == Encode(v)[0];
    if u < 0 {
      assert b[0] >= 0x80;
    } else {
      assert b[0] < 0x80;
    }
    var n := ByteCount(Magnitude(u));
    assert n == ByteCount(Magnitude(v));
    assert b[1..1 + n] == Bytes(Magnitude(u), n) == Bytes(Magnitude(v), n);
    assert b[1 + n..] == rest == rest';
    NumberOfBytes(Magnitude(u));
    NumberOfBytes(Magnitude(v));
  }
}
