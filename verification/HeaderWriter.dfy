/** The encoder's side of marker segments, ITU-T T.81 sections B.2.4.1 and B.2.4.2, and that reading
    them gives exactly the tables that were written. */
module HeaderWriter {
  import opened Arith
  import opened BitStream
  import opened BlockDecoder
  import opened Markers
  import opened MarkerReaders

  /** These bytes are in the stream from byte k on. */
  ghost predicate Carries(f: nat -> byte, k: nat, b: seq<byte>) {
    forall i :: 0 <= i < |b| ==> f(k + i) == b[i]
  }

  lemma CarriesSplit(f: nat -> byte, k: nat, a: seq<byte>, b: seq<byte>)
    ensures Carries(f, k, a + b) <==> Carries(f, k, a) && Carries(f, k + |a|, b)
  {
    if Carries(f, k, a + b) {
      forall i | 0 <= i < |a|
        ensures f(k + i) == a[i]
      {
        assert (a + b)[i] == a[i];
      }
      forall i | 0 <= i < |b|
        ensures f(k + |a| + i) == b[i]
      {
        assert (a + b)[|a| + i] == b[i] && k + (|a| + i) == k + |a| + i;
      }
    }
    if Carries(f, k, a) && Carries(f, k + |a|, b) {
      forall i | 0 <= i < |a + b|
        ensures f(k + i) == (a + b)[i]
      {
        assert i >= |a| ==> k + |a| + (i - |a|) == k + i;
      }
    }
  }

  /** Two bytes, the high one first. */
  function WordBytes(w: nat): seq<byte>
    requires w < 0x1_0000
  {
    [w / 256, w % 256]
  }

  // ---- quantisation tables ----

  /** A table to be written: where it goes, whether its entries take two bytes, and its entries in
      zig-zag order. */
  datatype Quant = Quant(id: nat, wide: bool, entries: seq<nat>) {
    ghost predicate Ok() {
      id < MAX_QUANT_TABLES && |entries| == 64 && forall i :: 0 <= i < 64 ==> entries[i] < if wide then 0x1_0000 else 256
    }
  }

  ghost function QuantHead(q: Quant): byte
    requires q.Ok()
  {
    if q.wide then 16 + q.id else q.id
  }

  ghost function EntryBytes(q: Quant): (b: seq<byte>)
    requires q.Ok()
    ensures |b| == if q.wide then 128 else 64
  {
    if q.wide then seq(128, (i: nat) requires i < 128 => if i % 2 == 0 then q.entries[i / 2] / 256 else q.entries[i / 2] % 256)
    else seq(64, (i: nat) requires i < 64 => q.entries[i])
  }

  ghost function QuantBytes(qs: seq<Quant>): seq<byte>
    requires forall i :: 0 <= i < |qs| ==> qs[i].Ok()
  {
    if qs == [] then [] else [QuantHead(qs[0])] + EntryBytes(qs[0]) + QuantBytes(qs[1..])
  }

  /** The entries as they are kept, in 16 bits with a sign. */
  function Kept(entries: seq<nat>): seq<int> {
    seq(|entries|, (i: nat) requires i < |entries| => Wrap16(entries[i]))
  }

  /** Each table takes the place of what was there before. */
  function AddQuants(quant: map<nat, seq<int>>, qs: seq<Quant>): map<nat, seq<int>>
    decreases |qs|
  {
    if qs == [] then quant else AddQuants(quant[qs[0].id := Kept(qs[0].entries)], qs[1..])
  }

  lemma EntryRead(f: nat -> byte, k: nat, q: Quant, i: nat)
    requires q.Ok() && Carries(f, k, EntryBytes(q)) && i < 64
    ensures |q.entries| == 64 && QuantEntry(f, k, q.wide, i) == Wrap16(q.entries[i])
  {
    var b := EntryBytes(q);
    if q.wide {
      assert (2 * i) / 2 == i && (2 * i + 1) / 2 == i;
      assert f(k + 2 * i) == b[2 * i] && f(k + (2 * i + 1)) == b[2 * i + 1];
      hide Wrap16;
    } else {
      assert f(k + i) == b[i];
    }
  }

  lemma EntriesRead(f: nat -> byte, k: nat, q: Quant)
    requires q.Ok() && Carries(f, k, EntryBytes(q))
    ensures QuantTable(f, k, q.wide) == Kept(q.entries)
  {
    hide QuantEntry, Wrap16, EntryBytes, Carries, Quant.Ok;
    EntryRead(f, k, q, 0);
    forall i: nat | i < 64
      ensures QuantEntry(f, k, q.wide, i) == Wrap16(q.entries[i])
    {
      EntryRead(f, k, q, i);
    }
  }

  /** The first table of a list. */
  lemma FirstQuant(f: nat -> byte, k: nat, qs: seq<Quant>, quant: map<nat, seq<int>>)
    requires qs != [] && (forall i :: 0 <= i < |qs| ==> qs[i].Ok()) && Carries(f, k, QuantBytes(qs))
    ensures forall i :: 0 <= i < |qs[1..]| ==> qs[1..][i].Ok()
    ensures f(k) == QuantHead(qs[0]) && Carries(f, k + 1, EntryBytes(qs[0]))
    ensures Carries(f, k + 1 + |EntryBytes(qs[0])|, QuantBytes(qs[1..]))
    ensures |QuantBytes(qs)| == 1 + |EntryBytes(qs[0])| + |QuantBytes(qs[1..])|
    ensures AddQuants(quant, qs) == AddQuants(quant[qs[0].id := Kept(qs[0].entries)], qs[1..])
  {
    hide EntryBytes, QuantHead, Kept, Quant.Ok;
    var head: seq<byte>, b, rest := [QuantHead(qs[0])], EntryBytes(qs[0]), QuantBytes(qs[1..]);
    assert QuantBytes(qs) == head + b + rest;
    CarriesSplit(f, k, head + b, rest);
    CarriesSplit(f, k, head, b);
    assert f(k + 0) == head[0];
  }

  lemma QuantHeadIs(q: Quant)
    requires q.Ok()
    ensures QuantHead(q) % 16 == q.id < MAX_QUANT_TABLES && (QuantHead(q) / 16 != 0 <==> q.wide)
    ensures |EntryBytes(q)| == if q.wide then 128 else 64
  {
  }

  lemma {:induction false} QuantsRead(f: nat -> byte, k: nat, qs: seq<Quant>, quant: map<nat, seq<int>>)
    requires (forall i :: 0 <= i < |qs| ==> qs[i].Ok()) && Carries(f, k, QuantBytes(qs))
    ensures Dqt(f, k, |QuantBytes(qs)|, quant) == Some(AddQuants(quant, qs))
    decreases |qs|
  {
    hide *;
    DqtStep(f, k, |QuantBytes(qs)|, quant);
    if qs == [] {
      NoQuants(quant);
    } else {
      FirstQuant(f, k, qs, quant);
      QuantHeadIs(qs[0]);
      EntriesRead(f, k + 1, qs[0]);
      QuantsRead(f, k + 1 + |EntryBytes(qs[0])|, qs[1..], quant[qs[0].id := Kept(qs[0].entries)]);
    }
  }

  lemma NoQuants(quant: map<nat, seq<int>>)
    ensures QuantBytes([]) == [] && AddQuants(quant, []) == quant
  {
  }

  // ---- Huffman tables ----

  /** A table to be written: class 0 for DC and 1 for AC, its number, and its code. */
  datatype Huff = Huff(kind: nat, id: nat, spec: HuffSpec) {
    ghost predicate Ok() {
      kind <= 1 && id < 4 && |spec.num| == 16 && Sum(spec.num) == |spec.vals| <= 255
    }

    /** DC tables are kept first. */
    function Place(): nat {
      4 * kind + id
    }
  }

  ghost function HuffHead(h: Huff): byte
    requires h.Ok()
  {
    16 * h.kind + h.id
  }

  ghost function HuffBytes(hs: seq<Huff>): seq<byte>
    requires forall i :: 0 <= i < |hs| ==> hs[i].Ok()
  {
    if hs == [] then []
    else [HuffHead(hs[0])] + hs[0].spec.num + hs[0].spec.vals + HuffBytes(hs[1..])
  }

  function AddHuffs(huff: map<nat, HuffSpec>, hs: seq<Huff>): map<nat, HuffSpec>
    decreases |hs|
  {
    if hs == [] then huff else AddHuffs(huff[hs[0].Place() := hs[0].spec], hs[1..])
  }

  lemma SliceRead(f: nat -> byte, k: nat, b: seq<byte>)
    requires Carries(f, k, b)
    ensures Slice(f, k, |b|) == b
  {
  }

  /** The first table of a list. */
  lemma FirstHuff(f: nat -> byte, k: nat, hs: seq<Huff>, huff: map<nat, HuffSpec>)
    requires hs != [] && (forall i :: 0 <= i < |hs| ==> hs[i].Ok()) && Carries(f, k, HuffBytes(hs))
    ensures forall i :: 0 <= i < |hs[1..]| ==> hs[1..][i].Ok()
    ensures f(k) == HuffHead(hs[0]) && Carries(f, k + 1, hs[0].spec.num) && Carries(f, k + 1 + |hs[0].spec.num|, hs[0].spec.vals)
    ensures Carries(f, k + 1 + |hs[0].spec.num| + |hs[0].spec.vals|, HuffBytes(hs[1..]))
    ensures |HuffBytes(hs)| == 1 + |hs[0].spec.num| + |hs[0].spec.vals| + |HuffBytes(hs[1..])|
    ensures AddHuffs(huff, hs) == AddHuffs(huff[hs[0].Place() := hs[0].spec], hs[1..])
  {
    hide HuffHead, Huff.Ok, Huff.Place;
    var head: seq<byte>, num, vals, rest := [HuffHead(hs[0])], hs[0].spec.num, hs[0].spec.vals, HuffBytes(hs[1..]);
    assert HuffBytes(hs) == head + num + vals + rest;
    CarriesSplit(f, k, head + num + vals, rest);
    CarriesSplit(f, k, head + num, vals);
    CarriesSplit(f, k, head, num);
    assert f(k + 0) == head[0];
  }

  lemma HuffHeadIs(h: Huff)
    requires h.Ok()
    ensures TableSlot(HuffHead(h)) == h.Place() < MAX_HUFF_TABLES && |h.spec.num| == 16 && Sum(h.spec.num) == |h.spec.vals| <= 255
  {
    hide Sum;
  }

  lemma {:induction false} HuffsRead(f: nat -> byte, k: nat, hs: seq<Huff>, huff: map<nat, HuffSpec>)
    requires (forall i :: 0 <= i < |hs| ==> hs[i].Ok()) && Carries(f, k, HuffBytes(hs))
    ensures Dht(f, k, |HuffBytes(hs)|, huff) == Some(AddHuffs(huff, hs))
    decreases |hs|
  {
    hide *;
    DhtStep(f, k, |HuffBytes(hs)|, huff);
    if hs == [] {
      NoHuffs(huff);
    } else {
      var h := hs[0];
      FirstHuff(f, k, hs, huff);
      HuffHeadIs(h);
      SliceRead(f, k + 1, h.spec.num);
      SliceRead(f, k + 17, h.spec.vals);
      assert h.spec == HuffSpec(h.spec.num, h.spec.vals);
      HuffsRead(f, k + 17 + |h.spec.vals|, hs[1..], huff[h.Place() := h.spec]);
    }
  }

  lemma NoHuffs(huff: map<nat, HuffSpec>)
    ensures HuffBytes([]) == [] && AddHuffs(huff, []) == huff
  {
  }

  // ---- segments ----

  datatype Written = Dqts(qs: seq<Quant>) | Dhts(hs: seq<Huff>) | Dri(interval: nat) | Other(code: byte, payload: seq<byte>) {
    /** The segment fits its length field; other segments have codes that process_markers skips. */
    ghost predicate Ok() {
      match this
      case Dqts(qs) => (forall i :: 0 <= i < |qs| ==> qs[i].Ok()) && |QuantBytes(qs)| + 2 < 0x1_0000
      case Dhts(hs) => (forall i :: 0 <= i < |hs| ==> hs[i].Ok()) && |HuffBytes(hs)| + 2 < 0x1_0000
      case Dri(interval) => interval < 0x1_0000
      case Other(code, payload) =>
        && |payload| + 2 < 0x1_0000 && code != DQT && code != DHT && code != DRI
        && !Stops(code) && !Refuses(code) && code != 0 && code != 0xFF
    }

    ghost function Code(): byte {
      match this
      case Dqts(_) => 0xDB
      case Dhts(_) => 0xC4
      case Dri(_) => 0xDD
      case Other(code, _) => code
    }

    ghost function Payload(): (b: seq<byte>)
      requires Ok()
      ensures |b| + 2 < 0x1_0000
    {
      match this
      case Dqts(qs) => QuantBytes(qs)
      case Dhts(hs) => HuffBytes(hs)
      case Dri(interval) => WordBytes(interval)
      case Other(_, payload) => payload
    }

    /** What it leaves of the tables. */
    ghost function Applied(t: Tables): Tables {
      match this
      case Dqts(qs) => t.(quant := AddQuants(t.quant, qs))
      case Dhts(hs) => t.(huff := AddHuffs(t.huff, hs))
      case Dri(interval) => t.(restart := interval)
      case Other(_, _) => t
    }
  }

  lemma WordRead(f: nat -> byte, k: nat, w: nat)
    requires w < 0x1_0000 && Carries(f, k, WordBytes(w))
    ensures Length(f, k) == w
  {
    assert f(k + 0) == WordBytes(w)[0] && f(k + 1) == WordBytes(w)[1];
  }

  /** Reading a segment gives exactly the tables that were written into it, entry by entry, and keeps the
      others. */
  lemma SegmentRead(f: nat -> byte, k: nat, w: Written, t: Tables)
    requires w.Ok() && Carries(f, k, WordBytes(2 + |w.Payload()|)) && Carries(f, k + 2, w.Payload())
    ensures Length(f, k) == 2 + |w.Payload()| && Segment(f, w.Code(), k, t) == Some(w.Applied(t))
  {
    hide QuantBytes, HuffBytes, WordBytes, Carries, Length, AddQuants, AddHuffs, Quant.Ok, Huff.Ok, Dqt, Dht, Stops, Refuses;
    WordRead(f, k, 2 + |w.Payload()|);
    match w
    case Dqts(qs) => QuantsRead(f, k + 2, qs, t.quant);
    case Dhts(hs) => HuffsRead(f, k + 2, hs, t.huff);
    case Dri(interval) =>
      WordRead(f, k + 2, interval);
      assert |WordBytes(interval)| == 2 by { TwoBytes(interval); }
    case Other(_, _) =>
  }

  lemma TwoBytes(w: nat)
    requires w < 0x1_0000
    ensures |WordBytes(w)| == 2
  {
  }

  // ---- a header ----

  /** A list of segments, and the marker that ends the header. */
  ghost function HeaderBytes(ws: seq<Written>, stop: byte): seq<byte>
    requires forall i :: 0 <= i < |ws| ==> ws[i].Ok()
  {
    if ws == [] then [0xFF, stop]
    else [0xFF, ws[0].Code()] + WordBytes(2 + |ws[0].Payload()|) + ws[0].Payload() + HeaderBytes(ws[1..], stop)
  }

  ghost function AllApplied(ws: seq<Written>, t: Tables): Tables
    decreases |ws|
  {
    if ws == [] then t else AllApplied(ws[1..], ws[0].Applied(t))
  }

  /** A marker that begins right here is the first one. */
  lemma MarkerHere(f: nat -> byte, e: nat, flag: nat, k: nat)
    requires Pads(f, e, flag) && flag <= 1 && f(k) == 0xFF && f(k + 1) != 0 && f(k + 1) != 0xFF
    ensures MarkerAt(f, e, flag, k) == k + 1
  {
    hide MarkerAt, Pads;
    assert FirstMarker(f, k, k + 1);
    OneFirstMarker(f, e, flag, k);
  }

  lemma FirstSegment(f: nat -> byte, k: nat, ws: seq<Written>, stop: byte)
    requires (forall i :: 0 <= i < |ws| ==> ws[i].Ok()) && Carries(f, k, HeaderBytes(ws, stop))
    ensures ws == [] ==> f(k) == 0xFF && f(k + 1) == stop && |HeaderBytes(ws, stop)| == 2
    ensures ws != [] ==>
              var w := ws[0]; var n := |w.Payload()|;
              && f(k) == 0xFF && f(k + 1) == w.Code()
              && Carries(f, k + 2, WordBytes(2 + n)) && Carries(f, k + 4, w.Payload())
              && (forall i :: 0 <= i < |ws[1..]| ==> ws[1..][i].Ok())
              && Carries(f, k + 4 + n, HeaderBytes(ws[1..], stop))
              && |HeaderBytes(ws, stop)| == 4 + n + |HeaderBytes(ws[1..], stop)|
  {
    hide Written.Ok, Written.Code, Written.Payload;
    if ws == [] {
      var b := HeaderBytes(ws, stop);
      assert f(k + 0) == b[0] && f(k + 1) == b[1];
    } else {
      var w := ws[0];
      var head: seq<byte>, len, b, rest := [0xFF, w.Code()], WordBytes(2 + |w.Payload()|), w.Payload(), HeaderBytes(ws[1..], stop);
      assert HeaderBytes(ws, stop) == head + len + b + rest;
      CarriesSplit(f, k, head + len + b, rest);
      CarriesSplit(f, k, head + len, b);
      CarriesSplit(f, k, head, len);
      assert f(k + 0) == head[0] && f(k + 1) == head[1];
      PayloadFits(w);
    }
  }

  lemma PayloadFits(w: Written)
    requires w.Ok()
    ensures |WordBytes(2 + |w.Payload()|)| == 2
  {
  }

  lemma CodeFits(w: Written)
    requires w.Ok()
    ensures w.Code() != 0 && w.Code() != 0xFF && !Stops(w.Code()) && !Refuses(w.Code())
  {
    hide QuantBytes, HuffBytes;
  }

  /** process_markers on a header: it stops right behind the marker that ends it, with exactly the tables
      that the segments define, one after the other. */
  lemma {:induction false} HeaderRead(f: nat -> byte, e: nat, flag: nat, k: nat, ws: seq<Written>, stop: byte, t: Tables)
    requires Pads(f, e, flag) && flag <= 1 && (forall i :: 0 <= i < |ws| ==> ws[i].Ok()) && Stops(stop)
    requires Carries(f, k, HeaderBytes(ws, stop))
    ensures Process(f, e, flag, k, t) == Stopped(stop, k + |HeaderBytes(ws, stop)|, AllApplied(ws, t))
    decreases |ws|
  {
    hide *;
    FirstSegment(f, k, ws, stop);
    StopFits(stop);
    ProcessStep(f, e, flag, k, t);
    if ws == [] {
      NoneApplied(t);
      MarkerHere(f, e, flag, k);
    } else {
      var w := ws[0];
      CodeFits(w);
      MarkerHere(f, e, flag, k);
      SegmentRead(f, k + 2, w, t);
      OneApplied(ws, t);
      HeaderRead(f, e, flag, k + 4 + |w.Payload()|, ws[1..], stop, w.Applied(t));
    }
  }

  lemma StopFits(stop: byte)
    requires Stops(stop)
    ensures stop != 0 && stop != 0xFF
  {
  }

  lemma NoneApplied(t: Tables)
    ensures AllApplied([], t) == t
  {
  }

  lemma OneApplied(ws: seq<Written>, t: Tables)
    requires ws != []
    ensures AllApplied(ws, t) == AllApplied(ws[1..], ws[0].Applied(t))
  {
  }
}
