/** Reading marker segments: next_marker, process_markers and the segment readers of
    jpeg_decoder. */
module MarkerReaders {
  import opened Arith
  import opened BitStream
  import opened BitReaders
  import opened BlockDecoder
  import opened Markers

  /** The next byte, which is byte k of the stream. */
  method GetByte(r: BitReader, ghost k: nat) returns (c: byte)
    requires r.InMarkers() && r.Position() == 8 * k
    modifies r
    ensures r.InMarkers() && r.octets == old(r.octets) && r.source == old(r.source) && r.Position() == 8 * (k + 1)
    ensures c == r.octets(k)
  {
    hide Window, Buffer, Raw;
    WindowOctet(r.octets, k);
    c := r.GetBits(8);
  }

  /** The next two bytes. */
  method GetWord(r: BitReader, ghost k: nat) returns (w: nat)
    requires r.InMarkers() && r.Position() == 8 * k
    modifies r
    ensures r.InMarkers() && r.octets == old(r.octets) && r.source == old(r.source) && r.Position() == 8 * (k + 2)
    ensures w == Length(r.octets, k) < 0x1_0000
  {
    hide Window, Buffer, Raw;
    WindowTwoOctets(r.octets, k);
    w := r.GetBits(16);
  }

  /** The next n bytes. */
  method GetBytes(r: BitReader, n: nat, ghost k: nat) returns (s: seq<byte>)
    requires r.InMarkers() && r.Position() == 8 * k
    modifies r
    ensures r.InMarkers() && r.octets == old(r.octets) && r.source == old(r.source) && r.Position() == 8 * (k + n)
    ensures s == Slice(r.octets, k, n)
  {
    hide Buffer, Raw, BitReader.InMarkers;
    s := [];
    var i := 0;
    while i < n
      invariant 0 <= i <= n && r.InMarkers() && r.octets == old(r.octets) && r.source == old(r.source) && r.Position() == 8 * (k + i)
      invariant s == Slice(r.octets, k, i)
    {
      var c := GetByte(r, k + i);
      s := s + [c];
      i := i + 1;
    }
  }

  /** Reads on to the next marker, skipping whatever comes before it. */
  method NextMarker(r: BitReader, ghost e: nat, ghost flag: nat, ghost k0: nat) returns (c: byte, ghost j: nat)
    requires r.InMarkers() && r.Position() == 8 * k0 && Pads(r.octets, e, flag) && flag <= 1
    modifies r
    ensures r.InMarkers() && r.octets == old(r.octets) && r.source == old(r.source) && r.Position() == 8 * (j + 1)
    ensures j == MarkerAt(r.octets, e, flag, k0) && c == r.octets(j)
  {
    hide Buffer, Raw, BitReader.InMarkers, MarkerAt, Pads;
    ghost var f, k := r.octets, k0;
    j := MarkerAt(f, e, flag, k0);
    c := 0;
    while c == 0
      invariant r.InMarkers() && r.octets == f && r.source == old(r.source) && r.Position() == 8 * k
      invariant c == 0 ==> k0 <= k <= j && (k == k0 || f(k - 1) == 0)
      invariant c != 0 ==> k == j + 1 && c == f(j)
      decreases j + 1 - k, if c == 0 then 1 else 0
    {
      while c != 0xFF
        invariant r.InMarkers() && r.octets == f && r.source == old(r.source) && r.Position() == 8 * k
        invariant k0 <= k <= j && (k > k0 || c == 0) && (k > k0 ==> f(k - 1) == c)
        decreases j - k
      {
        c := GetByte(r, k);
        k := k + 1;
      }
      while c == 0xFF
        invariant r.InMarkers() && r.octets == f && r.source == old(r.source) && r.Position() == 8 * k
        invariant k0 < k <= j + 1 && f(k - 1) == c && (k == j + 1 || c == 0xFF || c == 0)
        decreases j + 1 - k
      {
        assert k < j ==> !MarkerCode(f, k0, k);
        c := GetByte(r, k);
        k := k + 1;
      }
    }
  }

  /** The state of the decoder that marker segments change. */
  class MarkerReader {
    const r: BitReader
    var huff: map<nat, HuffSpec>
    var quant: map<nat, seq<int>>
    var restart: nat

    ghost function Defined(): Tables
      reads this
    {
      Tables(huff, quant, restart)
    }

    constructor (reader: BitReader)
      ensures r == reader && Defined() == Tables(map[], map[], 0)
    {
      r := reader;
      huff, quant, restart := map[], map[], 0;
    }

    /** The tables of a DHT segment. */
    method ReadDht(ghost k0: nat) returns (ok: bool)
      requires r.InMarkers() && r.Position() == 8 * k0
      modifies this`huff, r
      ensures r.InMarkers() && r.octets == old(r.octets) && r.source == old(r.source)
      ensures Segment(r.octets, DHT, k0, old(Defined())) == if ok then Some(Defined()) else None
      ensures ok ==> r.Position() == 8 * (k0 + Length(r.octets, k0))
    {
      hide Buffer, Raw, BitReader.InMarkers, Slice, Sum, Word, Dht;
      var left := GetWord(r, k0);
      if left < 2 {
        return false;
      }
      ghost var f, end := r.octets, k0 + left;
      left := left - 2;
      while left > 0
        invariant 0 <= left <= end && r.InMarkers() && r.octets == f && r.source == old(r.source) && r.Position() == 8 * (end - left)
        invariant Dht(f, k0 + 2, end - (k0 + 2), old(huff)) == Dht(f, end - left, left, huff)
      {
        ghost var k := end - left;
        DhtStep(f, k, left, huff);
        var index := GetByte(r, k);
        var num := GetBytes(r, 16, k + 1);
        var count := Sum(num);
        if count > 255 {
          return false;
        }
        var vals := GetBytes(r, count, k + 17);
        if left < 1 + 16 + count {
          return false;
        }
        left := left - (1 + 16 + count);
        var slot := index % 16 + index / 16 % 2 * (MAX_HUFF_TABLES / 2);
        if slot >= MAX_HUFF_TABLES {
          return false;
        }
        huff := huff[slot := HuffSpec(num, vals)];
      }
      DhtStep(f, end, 0, huff);
      ok := true;
    }

    /** The tables of a DQT segment. */
    method ReadDqt(ghost k0: nat) returns (ok: bool)
      requires r.InMarkers() && r.Position() == 8 * k0
      modifies this`quant, r
      ensures r.InMarkers() && r.octets == old(r.octets) && r.source == old(r.source)
      ensures Segment(r.octets, DQT, k0, old(Defined())) == if ok then Some(Defined()) else None
      ensures ok ==> r.Position() == 8 * (k0 + Length(r.octets, k0))
    {
      hide Buffer, Raw, BitReader.InMarkers, QuantTable, Word, Dqt;
      var left := GetWord(r, k0);
      if left < 2 {
        return false;
      }
      ghost var f, end := r.octets, k0 + left;
      left := left - 2;
      while left > 0
        invariant 0 <= left <= end && r.InMarkers() && r.octets == f && r.source == old(r.source) && r.Position() == 8 * (end - left)
        invariant Dqt(f, k0 + 2, end - (k0 + 2), old(quant)) == Dqt(f, end - left, left, quant)
      {
        ghost var k := end - left;
        DqtStep(f, k, left, quant);
        var n := GetByte(r, k);
        var prec := n / 16;
        n := n % 16;
        if n >= MAX_QUANT_TABLES {
          return false;
        }
        var q := ReadEntries(prec != 0, k + 1);
        quant := quant[n := q];
        var i := if prec != 0 then 64 + 1 + 64 else 64 + 1;
        if left < i {
          return false;
        }
        left := left - i;
      }
      DqtStep(f, end, 0, quant);
      ok := true;
    }

    /** The 64 entries of a quantization table. */
    method ReadEntries(wide: bool, ghost k: nat) returns (q: seq<int>)
      requires r.InMarkers() && r.Position() == 8 * k
      modifies r
      ensures r.InMarkers() && r.octets == old(r.octets) && r.source == old(r.source)
      ensures r.Position() == 8 * (k + if wide then 128 else 64)
      ensures q == QuantTable(r.octets, k, wide)
    {
      hide Buffer, Raw, BitReader.InMarkers, Wrap16;
      var entries := new int[64](_ => 0);
      var i := 0;
      ghost var f := r.octets;
      while i < 64
        modifies r, entries
        invariant 0 <= i <= 64 && r.InMarkers() && r.octets == f && r.source == old(r.source)
        invariant r.Position() == 8 * (k + if wide then 2 * i else i)
        invariant forall n: nat :: n < i ==> entries[n] == QuantEntry(f, k, wide, n)
      {
        var temp: int := GetByte(r, k + if wide then 2 * i else i);
        if wide {
          var low := GetByte(r, k + 2 * i + 1);
          temp := Word(temp, low);
        }
        EntryIs(f, k, wide, i, temp);
        entries[i] := Wrap16(temp);
        i := i + 1;
      }
      q := entries[..];
    }

    /** The restart interval. */
    method ReadDri(ghost k0: nat) returns (ok: bool)
      requires r.InMarkers() && r.Position() == 8 * k0
      modifies this`restart, r
      ensures r.InMarkers() && r.octets == old(r.octets) && r.source == old(r.source)
      ensures Segment(r.octets, DRI, k0, old(Defined())) == if ok then Some(Defined()) else None
      ensures ok ==> r.Position() == 8 * (k0 + Length(r.octets, k0))
    {
      hide Buffer, Raw, BitReader.InMarkers, Word;
      var n := GetWord(r, k0);
      if n != 4 {
        return false;
      }
      restart := GetWord(r, k0 + 2);
      ok := true;
    }

    /** Skips a segment that defines nothing of interest. */
    method SkipVariableMarker(ghost k0: nat) returns (ok: bool)
      requires r.InMarkers() && r.Position() == 8 * k0
      modifies r
      ensures r.InMarkers() && r.octets == old(r.octets) && r.source == old(r.source)
      ensures ok <==> Length(r.octets, k0) >= 2
      ensures ok ==> r.Position() == 8 * (k0 + Length(r.octets, k0))
    {
      hide Buffer, Raw, BitReader.InMarkers, Word;
      var left := GetWord(r, k0);
      if left < 2 {
        return false;
      }
      ghost var f, end := r.octets, k0 + left;
      left := left - 2;
      while left > 0
        invariant 0 <= left <= end && r.InMarkers() && r.octets == f && r.source == old(r.source) && r.Position() == 8 * (end - left)
      {
        var _ := GetByte(r, end - left);
        left := left - 1;
      }
      ok := true;
    }

    /** Reads one segment whose marker is neither one to stop at nor one to refuse. */
    method ReadSegment(c: byte, ghost k: nat) returns (ok: bool)
      requires r.InMarkers() && r.Position() == 8 * k
      modifies this, r
      ensures r.InMarkers() && r.octets == old(r.octets) && r.source == old(r.source)
      ensures Segment(r.octets, c, k, old(Defined())) == if ok then Some(Defined()) else None
      ensures ok ==> r.Position() == 8 * (k + Length(r.octets, k))
    {
      hide Buffer, Raw, BitReader.InMarkers, Length, Dht, Dqt;
      if c == DHT {
        ok := ReadDht(k);
      } else if c == DQT {
        ok := ReadDqt(k);
      } else if c == DRI {
        ok := ReadDri(k);
      } else {
        ok := SkipVariableMarker(k);
      }
    }

    /** Reads marker segments up to a marker that begins something else. It ends on every input:
        behind it there is the padding, which is an EOI marker. */
    method ProcessMarkers(ghost e: nat, ghost flag: nat, ghost k0: nat) returns (ok: bool, c: byte)
      requires r.InMarkers() && r.Position() == 8 * k0 && Pads(r.octets, e, flag) && flag <= 1
      modifies this, r
      ensures r.InMarkers() && r.octets == old(r.octets) && r.source == old(r.source)
      ensures var o := Process(r.octets, e, flag, k0, old(Defined()));
              && ok == o.Stopped?
              && (ok ==> c == o.marker && r.Position() == 8 * o.next && Defined() == o.tables)
    {
      hide Buffer, Raw, BitReader.InMarkers, MarkerAt, Pads, Segment, Length, Process;
      ghost var f, k := r.octets, k0;
      while true
        invariant r.InMarkers() && r.octets == f && r.source == old(r.source) && r.Position() == 8 * k
        invariant Process(f, e, flag, k0, old(Defined())) == Process(f, e, flag, k, Defined())
        decreases if k < e then e - k else 0
      {
        ProcessStep(f, e, flag, k, Defined());
        ghost var j;
        c, j := NextMarker(r, e, flag, k);
        if (0xC0 <= c <= 0xCF && c != DHT && c != JPG && c != DAC) || c == SOI || c == EOI || c == SOS {
          return true, c;
        }
        if c == DAC || c == JPG || 0xD0 <= c <= 0xD7 || c == TEM {
          return false, c;
        }
        ok := ReadSegment(c, j + 1);
        if !ok {
          return;
        }
        k := j + 1 + Length(f, j + 1);
      }
    }
  }

  lemma DhtStep(f: nat -> byte, k: nat, left: nat, huff: map<nat, HuffSpec>)
    ensures Dht(f, k, left, huff) ==
            if left == 0 then Some(huff)
            else
              var num := Slice(f, k + 1, 16);
              var count := Sum(num);
              if count > 255 || left < 17 + count || TableSlot(f(k)) >= MAX_HUFF_TABLES then None
              else Dht(f, k + 17 + count, left - (17 + count), huff[TableSlot(f(k)) := HuffSpec(num, Slice(f, k + 17, count))])
  {
  }

  lemma DqtStep(f: nat -> byte, k: nat, left: nat, quant: map<nat, seq<int>>)
    ensures Dqt(f, k, left, quant) ==
            if left == 0 then Some(quant)
            else
              var n, size := f(k) % 16, if f(k) / 16 != 0 then 129 else 65;
              if n >= MAX_QUANT_TABLES || left < size then None
              else Dqt(f, k + size, left - size, quant[n := QuantTable(f, k + 1, f(k) / 16 != 0)])
  {
  }

  lemma EntryIs(f: nat -> byte, k: nat, wide: bool, i: nat, temp: int)
    requires temp == if wide then Word(f(k + 2 * i), f(k + 2 * i + 1)) else f(k + i)
    ensures QuantEntry(f, k, wide, i) == Wrap16(temp)
  {
  }

  lemma ProcessStep(f: nat -> byte, e: nat, flag: nat, k: nat, t: Tables)
    requires Pads(f, e, flag) && flag <= 1
    ensures var j := MarkerAt(f, e, flag, k);
            && k < j && (e <= j ==> Stops(f(j)))
            && Process(f, e, flag, k, t) ==
               if Stops(f(j)) then Stopped(f(j), j + 1, t)
               else if Refuses(f(j)) then Refused
               else
                 match Segment(f, f(j), j + 1, t)
                 case None => Refused
                 case Some(t') => Process(f, e, flag, j + 1 + Length(f, j + 1), t')
  {
    hide MarkerAt, Segment, Length, Pads;
  }
}
