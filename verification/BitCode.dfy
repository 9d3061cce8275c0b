/** Bits as an encoder writes them, and the code words of a Huffman table. */
module BitCode {
  import opened Arith
  import opened BitStream
  import opened CanonicalCode
  import opened HuffmanDecode

  /** A number as n bits, the most significant one first. */
  function Digits(v: nat, n: nat): (b: seq<bool>)
    ensures |b| == n
  {
    if n == 0 then [] else Digits(v / 2, n - 1) + [v % 2 == 1]
  }

  /** These are the bits of stream f from position pos on. */
  ghost predicate Reads(f: nat -> byte, pos: nat, bits: seq<bool>) {
    forall i :: 0 <= i < |bits| ==> (Bit(f, pos + i) == 1 <==> bits[i])
  }

  lemma ReadsSplit(f: nat -> byte, pos: nat, a: seq<bool>, b: seq<bool>)
    ensures Reads(f, pos, a + b) <==> Reads(f, pos, a) && Reads(f, pos + |a|, b)
  {
    hide Bit;
    if Reads(f, pos, a + b) {
      forall i | 0 <= i < |a|
        ensures Bit(f, pos + i) == 1 <==> a[i]
      {
        assert (a + b)[i] == a[i];
      }
      forall i | 0 <= i < |b|
        ensures Bit(f, pos + |a| + i) == 1 <==> b[i]
      {
        assert (a + b)[|a| + i] == b[i] && pos + (|a| + i) == pos + |a| + i;
      }
    }
    if Reads(f, pos, a) && Reads(f, pos + |a|, b) {
      forall i | 0 <= i < |a + b|
        ensures Bit(f, pos + i) == 1 <==> (a + b)[i]
      {
        assert i >= |a| ==> pos + |a| + (i - |a|) == pos + i;
      }
    }
  }

  lemma {:induction false} ReadsDigits(f: nat -> byte, pos: nat, v: nat, n: nat)
    requires v < Pow2(n) && Reads(f, pos, Digits(v, n))
    ensures Window(f, pos, n) == v
  {
    if n == 0 {
      Pow2Small();
    } else {
      Pow2Double(n - 1);
      ReadsSplit(f, pos, Digits(v / 2, n - 1), [v % 2 == 1]);
      ReadsDigits(f, pos, v / 2, n - 1);
      assert [v % 2 == 1][0] == (v % 2 == 1);
      assert Bit(f, pos + n - 1 + 0) == 1 <==> v % 2 == 1;
      hide Bit, Pow2, Reads;
      WindowStep(f, pos, n);
    }
  }

  /** The table has a code word for the symbol. */
  ghost predicate Has(h: Spec, symbol: int)
    requires h.Ok()
  {
    exists p: nat :: p < |h.lens| && h.vals[p] == symbol
  }

  ghost function CodeWord(h: Spec, symbol: int): seq<bool>
    requires h.Ok() && Has(h, symbol)
  {
    var p: nat :| p < |h.lens| && h.vals[p] == symbol;
    Digits(Code(h.lens, p), h.lens[p])
  }

  lemma BeginsThere(h: Spec, f: nat -> byte, pos: nat, p: nat)
    requires h.Ok() && p < |h.lens| && Reads(f, pos, Digits(Code(h.lens, p), h.lens[p]))
    ensures Begins(h.lens, p, Window(f, pos, 16))
  {
    hide Reads, Window, Code, Begins, Start, Prefix;
    CodeFits(h.lens, p);
    ReadsDigits(f, pos, Code(h.lens, p), h.lens[p]);
    PrefixIsWindow(f, pos, h.lens[p]);
    BeginsIsPrefix(h.lens, p, Window(f, pos, 16));
  }

  lemma ChosenCode(h: Spec, symbol: int) returns (p: nat)
    requires h.Ok() && Has(h, symbol)
    ensures p < |h.lens| && h.vals[p] == symbol && CodeWord(h, symbol) == Digits(Code(h.lens, p), h.lens[p])
  {
    p :| p < |h.lens| && h.vals[p] == symbol && CodeWord(h, symbol) == Digits(Code(h.lens, p), h.lens[p]);
  }

  /** The code word is found where it was written, by either form of decoding. */
  lemma ReadsCode(h: Spec, f: nat -> byte, pos: nat, symbol: byte)
    requires h.Ok() && Has(h, symbol) && Reads(f, pos, CodeWord(h, symbol))
    ensures var next, n := pos + |CodeWord(h, symbol)|, symbol % 16;
            DecodeAt(h, f, pos) == Decoded(symbol, Window(f, next, n), next + n) && SymbolAt(h, f, pos) == (symbol, next)
  {
    hide *;
    var p := ChosenCode(h, symbol);
    BeginsThere(h, f, pos, p);
    DecodeAtCode(h, f, pos, p);
    SymbolAtCode(h, f, pos, p);
    CodeLength(h, p);
  }

  lemma CodeLength(h: Spec, p: nat)
    requires h.Ok() && p < |h.lens|
    ensures |Digits(Code(h.lens, p), h.lens[p])| == h.lens[p]
  {
  }

  lemma PrefixIsWindow(f: nat -> byte, pos: nat, d: nat)
    requires d <= 16
    ensures Prefix(Window(f, pos, 16), d) == Window(f, pos, d)
  {
    hide Window, Pow2;
    WindowPrefix(f, pos, d, 16 - d);
  }
}
