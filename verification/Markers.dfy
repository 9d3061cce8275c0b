/** Marker segments: ITU-T T.81 section B.1.1 and B.2.4, as jpeg_decoder::process_markers reads
    them. Bytes are counted in the stream that the reader delivers, padding included. */
module Markers {
  import opened Arith
  import opened BitStream
  import opened BlockDecoder

  const SOI: byte := 0xD8
  const EOI: byte := 0xD9
  const SOS: byte := 0xDA
  const DHT: byte := 0xC4
  const DAC: byte := 0xCC
  const DQT: byte := 0xDB
  const DRI: byte := 0xDD
  const JPG: byte := 0xC8
  const TEM: byte := 0x01
  const MAX_HUFF_TABLES := 8
  const MAX_QUANT_TABLES := 4

  /** The input ends before byte e of the stream; what follows is padding. */
  ghost predicate Pads(f: nat -> byte, e: nat, flag: nat) {
    forall m: nat :: e <= m ==> f(m) == Pad(flag, m - e)
  }

  lemma StreamPads(b: seq<byte>, flag: nat)
    ensures Pads(RawStream(b, flag), |b|, flag)
  {
  }

  // ---- finding a marker ----

  /** Byte j is the code of a marker that begins at or after byte k: it follows FF, and is
      neither 0 nor FF itself. */
  ghost predicate MarkerCode(f: nat -> byte, k: nat, j: nat) {
    k < j && f(j - 1) == 0xFF && f(j) != 0 && f(j) != 0xFF
  }

  /** The first marker at or after byte k. */
  ghost predicate FirstMarker(f: nat -> byte, k: nat, j: nat) {
    MarkerCode(f, k, j) && forall i: nat :: i < j ==> !MarkerCode(f, k, i)
  }

  /** The padding holds a marker, so there always is one; if it is not within the input, it is EOI. */
  lemma PaddingEnds(f: nat -> byte, e: nat, flag: nat, k: nat) returns (j: nat)
    requires Pads(f, e, flag) && flag <= 1
    ensures MarkerCode(f, k, j) && j <= (if k < e then e else k) + 2
  {
    var m := if k < e then e else k;
    j := if (flag + (m - e)) % 2 == 0 then m + 1 else m + 2;
    assert f(j - 1) == Pad(flag, j - 1 - e) && f(j) == Pad(flag, j - e);
  }

  lemma {:induction false} LeastMarker(f: nat -> byte, k: nat, j: nat) returns (i: nat)
    requires MarkerCode(f, k, j)
    ensures i <= j && FirstMarker(f, k, i)
    decreases j
  {
    if m: nat :| m < j && MarkerCode(f, k, m) {
      i := LeastMarker(f, k, m);
    } else {
      i := j;
    }
  }

  lemma OnlyEoiInPadding(f: nat -> byte, e: nat, flag: nat, k: nat, j: nat)
    requires Pads(f, e, flag) && flag <= 1 && MarkerCode(f, k, j) && e <= j
    ensures f(j) == EOI
  {
  }

  /** The first marker: there is exactly one, at most two bytes into the padding, and past the
      input it is EOI. */
  lemma OneFirstMarker(f: nat -> byte, e: nat, flag: nat, k: nat)
    requires Pads(f, e, flag) && flag <= 1
    ensures exists j: nat :: FirstMarker(f, k, j)
    ensures forall j: nat :: FirstMarker(f, k, j) ==>
              k < j <= (if k < e then e else k) + 2 && (e <= j ==> f(j) == EOI) &&
              forall i: nat :: FirstMarker(f, k, i) ==> i == j
  {
    var m := PaddingEnds(f, e, flag, k);
    var j := LeastMarker(f, k, m);
    if e <= j {
      OnlyEoiInPadding(f, e, flag, k, j);
    }
    forall i: nat | FirstMarker(f, k, i)
      ensures i == j
    {
      assert !(i < j) && !(j < i);
    }
  }

  // ---- segments ----

  /** A code specification as DHT gives it: how many codes there are of each length, and their symbols. */
  datatype HuffSpec = HuffSpec(num: seq<byte>, vals: seq<byte>)

  /** What marker segments define. */
  datatype Tables = Tables(huff: map<nat, HuffSpec>, quant: map<nat, seq<int>>, restart: nat)

  datatype Option<T> = None | Some(value: T)

  function Slice(f: nat -> byte, k: nat, n: nat): (s: seq<byte>)
    ensures |s| == n
  {
    seq(n, i requires 0 <= i < n => f(k + i))
  }

  function Sum(s: seq<byte>): nat {
    if s == [] then 0 else Sum(s[..|s| - 1]) + s[|s| - 1]
  }

  /** The length field of a segment. */
  function Length(f: nat -> byte, k: nat): nat {
    Word(f(k), f(k + 1))
  }

  /** Where a Huffman table is kept: DC tables first, then AC tables. */
  function TableSlot(index: byte): nat {
    index % 16 + index / 16 % 2 * (MAX_HUFF_TABLES / 2)
  }

  /** The table designations of T.81 section B.2.4.2 do not collide. */
  lemma SlotsApart(a: byte, b: byte)
    requires a / 16 <= 1 && a % 16 <= 3 && b / 16 <= 1 && b % 16 <= 3
    ensures TableSlot(a) < MAX_HUFF_TABLES && (TableSlot(a) == TableSlot(b) ==> a == b)
  {
  }

  /** The tables in the remaining bytes of a DHT segment. */
  ghost function Dht(f: nat -> byte, k: nat, left: nat, huff: map<nat, HuffSpec>): Option<map<nat, HuffSpec>>
    decreases left
  {
    if left == 0 then Some(huff)
    else
      var num := Slice(f, k + 1, 16);
      var count := Sum(num);
      if count > 255 || left < 17 + count || TableSlot(f(k)) >= MAX_HUFF_TABLES then None
      else Dht(f, k + 17 + count, left - (17 + count), huff[TableSlot(f(k)) := HuffSpec(num, Slice(f, k + 17, count))])
  }

  /** The 64 entries of a quantization table, of one or two bytes. */
  function QuantTable(f: nat -> byte, k: nat, wide: bool): (q: seq<int>)
    ensures |q| == 64
  {
    seq(64, i requires 0 <= i < 64 => QuantEntry(f, k, wide, i))
  }

  function QuantEntry(f: nat -> byte, k: nat, wide: bool, i: nat): int {
    if wide then Wrap16(Word(f(k + 2 * i), f(k + 2 * i + 1))) else f(k + i)
  }

  /** The tables in the remaining bytes of a DQT segment. */
  ghost function Dqt(f: nat -> byte, k: nat, left: nat, quant: map<nat, seq<int>>): Option<map<nat, seq<int>>>
    decreases left
  {
    if left == 0 then Some(quant)
    else
      var n, wide := f(k) % 16, f(k) / 16 != 0;
      var size := if wide then 129 else 65;
      if n >= MAX_QUANT_TABLES || left < size then None
      else Dqt(f, k + size, left - size, quant[n := QuantTable(f, k + 1, wide)])
  }

  /** The tables after the segment of marker c, whose length field is at byte k. */
  ghost function Segment(f: nat -> byte, c: byte, k: nat, t: Tables): Option<Tables> {
    var n := Length(f, k);
    if c == DRI then
      if n != 4 then None else Some(t.(restart := Length(f, k + 2)))
    else if n < 2 then None
    else if c == DHT then
      match Dht(f, k + 2, n - 2, t.huff)
      case None => None
      case Some(huff) => Some(t.(huff := huff))
    else if c == DQT then
      match Dqt(f, k + 2, n - 2, t.quant)
      case None => None
      case Some(quant) => Some(t.(quant := quant))
    else Some(t)
  }

  // ---- a run of segments ----

  /** The markers at which process_markers returns: SOFn, SOI, EOI and SOS. */
  predicate Stops(c: byte) {
    (0xC0 <= c <= 0xCF && c != DHT && c != JPG && c != DAC) || c == SOI || c == EOI || c == SOS
  }

  /** The markers it refuses: DAC, JPG, RSTn and TEM. */
  predicate Refuses(c: byte) {
    c == DAC || c == JPG || 0xD0 <= c <= 0xD7 || c == TEM
  }

  /** The outcome: the marker found, the byte behind it, and the tables defined up to there. */
  datatype Outcome = Refused | Stopped(marker: byte, next: nat, tables: Tables)

  ghost function MarkerAt(f: nat -> byte, e: nat, flag: nat, k: nat): (j: nat)
    requires Pads(f, e, flag) && flag <= 1
    ensures FirstMarker(f, k, j) && k < j <= (if k < e then e else k) + 2 && (e <= j ==> f(j) == EOI)
  {
    OneFirstMarker(f, e, flag, k);
    var j: nat :| FirstMarker(f, k, j);
    j
  }

  /** Marker segments from byte k on. */
  ghost function Process(f: nat -> byte, e: nat, flag: nat, k: nat, t: Tables): Outcome
    requires Pads(f, e, flag) && flag <= 1
    decreases if k < e then e - k else 0
  {
    var j := MarkerAt(f, e, flag, k);
    if Stops(f(j)) then Stopped(f(j), j + 1, t)
    else if Refuses(f(j)) then Refused
    else
      match Segment(f, f(j), j + 1, t)
      case None => Refused
      case Some(t') => Process(f, e, flag, j + 1 + Length(f, j + 1), t')
  }
}
