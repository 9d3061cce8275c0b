/** The encoder's side of a baseline block, ITU-T T.81 section F.1.2, and that decoding it gives the
    coefficients back. */
module BlockEncoder {
  import opened Arith
  import opened BitStream
  import opened HuffmanDecode
  import opened BlockDecoder
  import opened BitCode

  // ---- a coefficient: T.81 tables F.1 and F.2 ----

  function Magnitude(d: int): nat {
    if d < 0 then -d else d
  }

  /** How many binary digits a number has. */
  function BitCount(m: nat): (n: nat)
    ensures m < Pow2(n) && (n > 0 ==> Pow2(n - 1) <= m)
    ensures m == 0 <==> n == 0
  {
    if m == 0 then 0 else BitCount(m / 2) + 1
  }

  /** The category of a coefficient or DC difference. */
  function Category(d: int): nat {
    BitCount(Magnitude(d))
  }

  /** The extra bits that tell it within its category: a negative number is sent less one, of which
      the low order bits are taken. */
  function ExtraOf(d: int): (v: nat)
    ensures v < Pow2(Category(d))
  {
    if d > 0 then d else d + Pow2(Category(d)) - 1
  }

  /** EXTEND undoes that, and no other extra bits of the category give the number. */
  lemma ExtendBack(d: int, v: nat)
    requires v < Pow2(Category(d))
    ensures Extend(v, Category(d)) == d <==> v == ExtraOf(d)
  {
    var s := Category(d);
    if s == 0 {
      assert v == 0 by { Pow2Small(); }
    } else {
      Pow2Double(s - 1);
    }
  }

  // ---- run lengths ----

  /** A code word and the bits behind it. */
  datatype Item = Item(symbol: byte, tail: seq<bool>)

  ghost function ItemBits(h: Spec, i: Item): seq<bool>
    requires h.Ok() && Has(h, i.symbol)
  {
    CodeWord(h, i.symbol) + i.tail
  }

  ghost predicate AllHas(h: Spec, items: seq<Item>)
    requires h.Ok()
  {
    forall i :: 0 <= i < |items| ==> Has(h, items[i].symbol)
  }

  ghost function ItemsBits(h: Spec, items: seq<Item>): seq<bool>
    requires h.Ok() && AllHas(h, items)
  {
    if items == [] then [] else ItemBits(h, items[0]) + ItemsBits(h, items[1..])
  }

  /** Coefficients that can be coded at all. */
  ghost predicate Codable(c: seq<int>) {
    |c| == 64 && forall j :: 0 <= j < 64 ==> Category(c[j]) <= 15
  }

  /** The first position from k on with a coefficient that is not zero. */
  function NextNonZero(c: seq<int>, k: nat, end: nat): (m: nat)
    requires |c| == 64 && k <= end <= 64
    ensures k <= m <= end && (forall j :: k <= j < m ==> c[j] == 0) && (m < end ==> c[m] != 0)
    decreases end - k
  {
    if k == end || c[k] != 0 then k else NextNonZero(c, k + 1, end)
  }

  /** The position behind the last coefficient that is not zero, k if there is none. */
  function Behind(c: seq<int>, k: nat, end: nat): (m: nat)
    requires |c| == 64 && k <= end <= 64
    ensures k <= m <= end && (forall j :: m <= j < end ==> c[j] == 0) && (m > k ==> c[m - 1] != 0)
    decreases end - k
  {
    if k == end || c[end - 1] != 0 then end else Behind(c, k, end - 1)
  }

  const ZRL: byte := 0xF0
  const EOB: byte := 0

  /** The coefficients from position k on that are not zero, each with the zeros before it; sixteen
      zeros take a ZRL. */
  function Items(c: seq<int>, k: nat, end: nat): seq<Item>
    requires Codable(c) && k <= end <= 64
    decreases end - k
  {
    var m := NextNonZero(c, k, end);
    if m == end then []
    else if m - k > 15 then [Item(ZRL, [])] + Items(c, k + 16, end)
    else [Item(16 * (m - k) + Category(c[m]), Digits(ExtraOf(c[m]), Category(c[m])))] + Items(c, m + 1, end)
  }

  /** The AC coefficients, with an end-of-block code if the block ends in zeros. */
  function AcItems(c: seq<int>): seq<Item>
    requires Codable(c)
  {
    Items(c, 1, 64) + if Behind(c, 1, 64) < 64 then [Item(EOB, [])] else []
  }

  function DcItem(c: seq<int>, pred: int): Item
    requires Codable(c) && Category(c[0] - pred) <= 15
  {
    Item(Category(c[0] - pred), Digits(ExtraOf(c[0] - pred), Category(c[0] - pred)))
  }

  /** A block can be coded with these tables. */
  ghost predicate CanCode(dc: Spec, ac: Spec, c: seq<int>, pred: int)
    requires dc.Ok() && ac.Ok()
  {
    Codable(c) && Category(c[0] - pred) <= 15 && Has(dc, Category(c[0] - pred)) && AllHas(ac, AcItems(c))
  }

  ghost function BlockBits(dc: Spec, ac: Spec, c: seq<int>, pred: int): seq<bool>
    requires dc.Ok() && ac.Ok() && CanCode(dc, ac, c, pred)
  {
    ItemBits(dc, DcItem(c, pred)) + ItemsBits(ac, AcItems(c))
  }

  // ---- reading it back ----

  lemma ReadsItem(h: Spec, f: nat -> byte, pos: nat, i: Item)
    requires h.Ok() && Has(h, i.symbol) && Reads(f, pos, ItemBits(h, i))
    ensures var next := pos + |CodeWord(h, i.symbol)|;
            && SymbolAt(h, f, pos) == (i.symbol, next) && Reads(f, next, i.tail) && next + |i.tail| == pos + |ItemBits(h, i)|
            && var n := i.symbol % 16; DecodeAt(h, f, pos) == Decoded.Decoded(i.symbol, Window(f, next, n), next + n)
  {
    hide Reads, DecodeAt, SymbolAt, Window, CodeWord, Has, Spec.Ok;
    ReadsSplit(f, pos, CodeWord(h, i.symbol), i.tail);
    ReadsCode(h, f, pos, i.symbol);
  }

  /** An item whose extra bits are those that its symbol asks for. */
  lemma ReadsExtra(h: Spec, f: nat -> byte, pos: nat, i: Item, extra: nat)
    requires h.Ok() && Has(h, i.symbol) && Reads(f, pos, ItemBits(h, i))
    requires extra < Pow2(i.symbol % 16) && i.tail == Digits(extra, i.symbol % 16)
    ensures DecodeAt(h, f, pos) == Decoded.Decoded(i.symbol, extra, pos + |ItemBits(h, i)|)
    ensures var (symbol, next) := SymbolAt(h, f, pos);
            symbol == i.symbol && Window(f, next, symbol % 16) == extra && next + symbol % 16 == pos + |ItemBits(h, i)|
  {
    hide Reads, DecodeAt, SymbolAt, Window, CodeWord, Has, Spec.Ok, Pow2, ItemBits;
    ReadsItem(h, f, pos, i);
    ReadsDigits(f, pos + |CodeWord(h, i.symbol)|, extra, i.symbol % 16);
  }

  /** The coefficients times their quantisation steps. */
  function Scaled(c: seq<int>, q: seq<int>): (zz: seq<int>)
    requires |c| == |q| == 64
    ensures |zz| == 64 && forall j :: 0 <= j < 64 ==> zz[j] == Wrap16(c[j] * q[j])
  {
    seq(64, (j: nat) requires j < 64 => Wrap16(c[j] * q[j]))
  }

  /** What has been decoded before position m, with nothing behind. */
  ghost predicate UpTo(zz: seq<int>, c: seq<int>, q: seq<int>, m: nat)
    requires |zz| == |c| == |q| == 64
  {
    forall j :: 0 <= j < 64 ==> zz[j] == if j < m then Wrap16(c[j] * q[j]) else 0
  }

  lemma ZerosFollow(zz: seq<int>, c: seq<int>, q: seq<int>, k: nat, m: nat)
    requires |zz| == |c| == |q| == 64 && k <= m && UpTo(zz, c, q, k) && forall j :: k <= j < m && j < 64 ==> c[j] == 0
    ensures UpTo(zz, c, q, m)
  {
    ZeroScaled();
  }

  lemma ZerosBefore(zz: seq<int>, c: seq<int>, q: seq<int>, k: nat, m: nat, to: nat)
    requires |zz| == |c| == |q| == 64 && k <= to <= m <= 64 && UpTo(zz, c, q, k) && m == NextNonZero(c, k, 64)
    ensures UpTo(zz, c, q, to)
  {
    ZerosFollow(zz, c, q, k, to);
  }

  lemma ZerosBehind(zz: seq<int>, c: seq<int>, q: seq<int>, k: nat)
    requires |zz| == |c| == |q| == 64 && k <= 64 && UpTo(zz, c, q, Behind(c, k, 64))
    ensures zz == Scaled(c, q)
  {
    ZerosFollow(zz, c, q, Behind(c, k, 64), 64);
  }

  lemma ZeroScaled()
    ensures Wrap16(0) == 0
  {
  }

  lemma OneFollows(zz: seq<int>, c: seq<int>, q: seq<int>, m: nat)
    requires |zz| == |c| == |q| == 64 && m < 64 && UpTo(zz, c, q, m)
    ensures UpTo(zz[m := Wrap16(c[m] * q[m])], c, q, m + 1)
  {
    hide Wrap16;
  }

  lemma ItemsStep(h: Spec, items: seq<Item>, first: Item, rest: seq<Item>)
    requires h.Ok() && items == [first] + rest && AllHas(h, items)
    ensures Has(h, first.symbol) && AllHas(h, rest) && ItemsBits(h, items) == ItemBits(h, first) + ItemsBits(h, rest)
  {
    hide Has, ItemBits, Spec.Ok;
    assert items[1..] == rest && items[0] == first;
    forall i | 0 <= i < |rest|
      ensures Has(h, rest[i].symbol)
    {
      assert rest[i] == items[i + 1];
    }
  }

  lemma {:induction false} BehindIs(c: seq<int>, k: nat, end: nat, b: nat)
    requires |c| == 64 && k <= b <= end <= 64 && (forall j :: b <= j < end ==> c[j] == 0) && (b > k ==> c[b - 1] != 0)
    ensures Behind(c, k, end) == b
    decreases end - k
  {
    if b < end {
      BehindIs(c, k, end - 1, b);
    }
  }

  lemma BehindStep(c: seq<int>, k: nat, end: nat, m: nat)
    requires |c| == 64 && k <= m < end <= 64 && c[m] != 0
    ensures forall i :: k <= i <= m + 1 ==> Behind(c, i, end) == Behind(c, k, end)
  {
    var b := Behind(c, k, end);
    hide Behind;
    forall i | k <= i <= m + 1
      ensures Behind(c, i, end) == b
    {
      BehindIs(c, i, end, b);
    }
  }

  /** The item for the coefficient at m. */
  function ItemAt(c: seq<int>, k: nat, m: nat): Item
    requires Codable(c) && k <= m < 64
  {
    if m - k > 15 then Item(ZRL, []) else Item(16 * (m - k) + Category(c[m]), Digits(ExtraOf(c[m]), Category(c[m])))
  }

  lemma Nibbles(r: nat, s: nat)
    requires s < 16
    ensures (16 * r + s) / 16 == r && (16 * r + s) % 16 == s
  {
  }

  /** The extra bits of that item, as a number. */
  function ItemExtra(c: seq<int>, k: nat, m: nat): nat
    requires Codable(c) && k <= m < 64
  {
    if m - k > 15 then 0 else ExtraOf(c[m])
  }

  lemma ItemFits(c: seq<int>, k: nat, m: nat)
    requires Codable(c) && k <= m < 64 && |c| == 64 && c[m] != 0
    ensures var i, extra := ItemAt(c, k, m), ItemExtra(c, k, m);
            && extra < Pow2(i.symbol % 16) && i.tail == Digits(extra, i.symbol % 16)
            && if m - k > 15 then i.symbol % 16 == 0 && i.symbol / 16 == 15
               else i.symbol % 16 == Category(c[m]) > 0 && i.symbol / 16 == m - k && extra == ExtraOf(c[m])
  {
    hide *;
    CategoryOf(c, m);
    ItemIs(c, k, m);
    if m - k > 15 {
      Pow2Small();
    } else {
      Nibbles(m - k, Category(c[m]));
    }
  }

  lemma CategoryOf(c: seq<int>, m: nat)
    requires Codable(c) && |c| == 64 && m < 64
    ensures Category(c[m]) <= 15 && (c[m] != 0 ==> Category(c[m]) > 0) && ExtraOf(c[m]) < Pow2(Category(c[m]))
  {
  }

  lemma ItemIs(c: seq<int>, k: nat, m: nat)
    requires Codable(c) && |c| == 64 && k <= m < 64
    ensures if m - k > 15 then ItemAt(c, k, m).symbol == 0xF0 && ItemExtra(c, k, m) == 0
            else ItemAt(c, k, m).symbol == 16 * (m - k) + Category(c[m]) && ItemExtra(c, k, m) == ExtraOf(c[m])
    ensures ItemAt(c, k, m).tail == if m - k > 15 then Digits(0, 0) else Digits(ExtraOf(c[m]), Category(c[m]))
  {
    hide Category, ExtraOf;
  }

  lemma ItemsAt(c: seq<int>, k: nat, end: nat, m: nat)
    requires Codable(c) && k <= m < end <= 64 && m == NextNonZero(c, k, end)
    ensures var to := if m - k > 15 then k + 16 else m + 1;
            Items(c, k, end) == [ItemAt(c, k, m)] + Items(c, to, end)
  {
    hide NextNonZero;
  }

  /** One item. */
  lemma ItemDecodes(h: Spec, q: seq<int>, f: nat -> byte, pos: nat, c: seq<int>, k: nat, m: nat, zz: seq<int>)
    returns (next: nat, to: nat, zz': seq<int>)
    requires h.Ok() && Codable(c) && |c| == |q| == |zz| == 64 && 1 <= k <= m < 64 && UpTo(zz, c, q, k) && m == NextNonZero(c, k, 64)
    requires AllHas(h, Items(c, k, 64)) && Reads(f, pos, ItemsBits(h, Items(c, k, 64)))
    ensures k < to <= m + 1 && |zz'| == 64 && UpTo(zz', c, q, to)
    ensures AcFrom(h, q, f, pos, k, zz) == AcFrom(h, q, f, next, to, zz')
    ensures AllHas(h, Items(c, to, 64)) && Reads(f, next, ItemsBits(h, Items(c, to, 64)))
    ensures next + |ItemsBits(h, Items(c, to, 64))| == pos + |ItemsBits(h, Items(c, k, 64))|
  {
    hide *;
    var i := ItemAt(c, k, m);
    to := if m - k > 15 then k + 16 else m + 1;
    NextIs(c, k, 64, m);
    ItemsAt(c, k, 64, m);
    ItemFits(c, k, m);
    ItemsStep(h, Items(c, k, 64), i, Items(c, to, 64));
    ReadsSplit(f, pos, ItemBits(h, i), ItemsBits(h, Items(c, to, 64)));
    ReadsExtra(h, f, pos, i, ItemExtra(c, k, m));
    AcStep(h, q, f, pos, k, zz);
    next := pos + |ItemBits(h, i)|;
    zz' := zz;
    if m - k > 15 {
      ZerosBefore(zz, c, q, k, m, to);
    } else {
      ExtendBack(c[m], ItemExtra(c, k, m));
      ZerosBefore(zz, c, q, k, m, m);
      OneFollows(zz, c, q, m);
      zz' := zz[m := Wrap16(c[m] * q[m])];
    }
  }

  lemma NextIs(c: seq<int>, k: nat, end: nat, m: nat)
    requires |c| == 64 && k <= end <= 64 && m == NextNonZero(c, k, end)
    ensures k <= m <= end && (m < end ==> c[m] != 0)
  {
  }

  lemma NoItems(h: Spec, c: seq<int>, k: nat, end: nat)
    requires h.Ok() && Codable(c) && |c| == 64 && k <= end <= 64 && NextNonZero(c, k, end) == end
    ensures Items(c, k, end) == [] && Behind(c, k, end) == k
    ensures AllHas(h, []) && ItemsBits(h, []) == []
  {
    BehindIs(c, k, end, k);
  }

  /** Decoding the items of a block arrives behind the last coefficient that is not zero. */
  lemma {:induction false} ItemsDecode(h: Spec, q: seq<int>, f: nat -> byte, pos: nat, c: seq<int>, k: nat, zz: seq<int>)
    returns (zz': seq<int>)
    requires h.Ok() && Codable(c) && |c| == |q| == |zz| == 64 && 1 <= k <= 64 && UpTo(zz, c, q, k)
    requires AllHas(h, Items(c, k, 64)) && Reads(f, pos, ItemsBits(h, Items(c, k, 64)))
    ensures |zz'| == 64 && UpTo(zz', c, q, Behind(c, k, 64))
    ensures AcFrom(h, q, f, pos, k, zz) == AcFrom(h, q, f, pos + |ItemsBits(h, Items(c, k, 64))|, Behind(c, k, 64), zz')
    decreases 64 - k
  {
    hide *;
    var m := NextNonZero(c, k, 64);
    NextIs(c, k, 64, m);
    if m == 64 {
      NoItems(h, c, k, 64);
      zz' := zz;
    } else {
      BehindStep(c, k, 64, m);
      var next, to;
      next, to, zz' := ItemDecodes(h, q, f, pos, c, k, m, zz);
      zz' := ItemsDecode(h, q, f, next, c, to, zz');
    }
  }

  lemma HasParts(h: Spec, a: seq<Item>, b: seq<Item>)
    requires h.Ok() && AllHas(h, a + b)
    ensures AllHas(h, a) && AllHas(h, b)
  {
    hide Has, Spec.Ok;
    forall i | 0 <= i < |a|
      ensures Has(h, a[i].symbol)
    {
      assert a[i] == (a + b)[i];
    }
    forall i | 0 <= i < |b|
      ensures Has(h, b[i].symbol)
    {
      assert b[i] == (a + b)[|a| + i];
    }
  }

  lemma {:induction false} BitsAppend(h: Spec, a: seq<Item>, b: seq<Item>)
    requires h.Ok() && AllHas(h, a + b)
    ensures AllHas(h, a) && AllHas(h, b) && ItemsBits(h, a + b) == ItemsBits(h, a) + ItemsBits(h, b)
  {
    hide *;
    HasParts(h, a, b);
    if a == [] {
      assert a + b == b;
      NoBits(h);
    } else {
      assert a + b == [a[0]] + (a[1..] + b) && a == [a[0]] + a[1..];
      ItemsStep(h, a + b, a[0], a[1..] + b);
      ItemsStep(h, a, a[0], a[1..]);
      BitsAppend(h, a[1..], b);
    }
  }

  lemma NoBits(h: Spec)
    requires h.Ok()
    ensures AllHas(h, []) && ItemsBits(h, []) == []
  {
  }

  lemma EobDecodes(h: Spec, f: nat -> byte, pos: nat)
    requires h.Ok() && AllHas(h, [Item(EOB, [])]) && Reads(f, pos, ItemsBits(h, [Item(EOB, [])]))
    ensures DecodeAt(h, f, pos) == Decoded.Decoded(0, 0, pos + |ItemsBits(h, [Item(EOB, [])])|)
  {
    var i := Item(EOB, []);
    Pow2Small();
    NoBits(h);
    hide Has, ItemBits, Spec.Ok, Reads, DecodeAt, AllHas, ItemsBits, Pow2;
    assert [i] == [i] + [];
    ItemsStep(h, [i], i, []);
    assert ItemBits(h, i) + [] == ItemBits(h, i);
    ReadsExtra(h, f, pos, i, 0);
  }

  /** An AC part is decoded up to its last bit. */
  lemma AcDecodes(h: Spec, q: seq<int>, f: nat -> byte, pos: nat, c: seq<int>, zz: seq<int>)
    requires h.Ok() && Codable(c) && |c| == |q| == |zz| == 64 && UpTo(zz, c, q, 1)
    requires AllHas(h, AcItems(c)) && Reads(f, pos, ItemsBits(h, AcItems(c)))
    ensures AcFrom(h, q, f, pos, 1, zz) ==
            Outcome.Decoded(Block(Scaled(c, q), Behind(c, 1, 64), pos + |ItemsBits(h, AcItems(c))|))
  {
    hide *;
    var b := Behind(c, 1, 64);
    var items, tail := Items(c, 1, 64), if b < 64 then [Item(EOB, [])] else [];
    AcItemsAre(h, c);
    BitsAppend(h, items, tail);
    ReadsSplit(f, pos, ItemsBits(h, items), ItemsBits(h, tail));
    var zz' := ItemsDecode(h, q, f, pos, c, 1, zz);
    var next := pos + |ItemsBits(h, items)|;
    AcStep(h, q, f, next, b, zz');
    ZerosBehind(zz', c, q, 1);
    if b < 64 {
      EobDecodes(h, f, next);
    }
  }

  lemma AcItemsAre(h: Spec, c: seq<int>)
    requires h.Ok() && Codable(c) && |c| == 64
    ensures var b := Behind(c, 1, 64);
            1 <= b <= 64 && AcItems(c) == Items(c, 1, 64) + if b < 64 then [Item(EOB, [])] else []
    ensures AllHas(h, []) && ItemsBits(h, []) == []
  {
    hide Items, Codable;
  }

  lemma DcItemIs(c: seq<int>, pred: int)
    requires Codable(c) && |c| == 64 && Category(c[0] - pred) <= 15
    ensures DcItem(c, pred).symbol == Category(c[0] - pred) && ExtraOf(c[0] - pred) < Pow2(Category(c[0] - pred))
    ensures DcItem(c, pred).tail == Digits(ExtraOf(c[0] - pred), Category(c[0] - pred))
    ensures Category(c[0]) <= 15
  {
  }

  lemma DcAtIs(dc: Spec, f: nat -> byte, pos: nat, pred: int, symbol: byte, extra: nat, next: nat, d: int)
    requires dc.Ok() && DecodeAt(dc, f, pos) == Decoded.Decoded(symbol, extra, next) && symbol < 16 && Extend(extra, symbol) == d
    ensures DcAt(dc, f, pos, pred) == Wrap32(d + pred)
  {
    hide DecodeAt, Extend, Wrap32, Spec.Ok;
    assert symbol % 16 == symbol;
  }

  lemma DcDecodes(dc: Spec, f: nat -> byte, pos: nat, c: seq<int>, pred: int)
    requires dc.Ok() && Codable(c) && |c| == 64 && Category(c[0] - pred) <= 15 && Has(dc, Category(c[0] - pred))
    requires Has(dc, DcItem(c, pred).symbol) && Reads(f, pos, ItemBits(dc, DcItem(c, pred)))
    ensures DecodeAt(dc, f, pos).next == pos + |ItemBits(dc, DcItem(c, pred))| && DcAt(dc, f, pos, pred) == c[0]
  {
    hide *;
    var i := DcItem(c, pred);
    DcItemIs(c, pred);
    SmallNumber(c[0]);
    ExtendBack(c[0] - pred, ExtraOf(c[0] - pred));
    ReadsExtra(dc, f, pos, i, ExtraOf(c[0] - pred));
    DcAtIs(dc, f, pos, pred, i.symbol, ExtraOf(c[0] - pred), pos + |ItemBits(dc, i)|, c[0] - pred);
  }

  lemma SmallNumber(d: int)
    requires Category(d) <= 15
    ensures -0x8000 < d < 0x8000 && Wrap32(d) == d
  {
    Pow2Monotone(Category(d), 15);
    Pow2Small();
  }

  lemma StartUpTo(c: seq<int>, q: seq<int>)
    requires |c| == |q| == 64
    ensures UpTo(DcOnly(Wrap16(c[0] * q[0])), c, q, 1)
  {
    hide Wrap16;
  }

  lemma BlockParts(dc: Spec, ac: Spec, c: seq<int>, pred: int)
    requires dc.Ok() && ac.Ok() && |c| == 64 && CanCode(dc, ac, c, pred)
    ensures Codable(c) && Category(c[0] - pred) <= 15 && Has(dc, Category(c[0] - pred)) && Has(dc, DcItem(c, pred).symbol)
    ensures AllHas(ac, AcItems(c))
    ensures BlockBits(dc, ac, c, pred) == ItemBits(dc, DcItem(c, pred)) + ItemsBits(ac, AcItems(c))
  {
  }

  lemma BlockAtIs(dc: Spec, ac: Spec, q: seq<int>, f: nat -> byte, pos: nat, pred: int)
    requires dc.Ok() && ac.Ok() && |q| == 64
    ensures BlockAt(dc, ac, q, f, pos, pred) ==
            AcFrom(ac, q, f, DecodeAt(dc, f, pos).next, 1, DcOnly(Wrap16(DcAt(dc, f, pos, pred) * q[0])))
  {
  }

  /** Decoding a block gives back exactly the coefficients that were coded, times the steps of their
      quantisation, and ends right behind its last bit; the position reached is the one behind the last
      AC coefficient that is not zero. */
  lemma BlockDecodes(dc: Spec, ac: Spec, q: seq<int>, f: nat -> byte, pos: nat, c: seq<int>, pred: int)
    requires dc.Ok() && ac.Ok() && |c| == |q| == 64 && CanCode(dc, ac, c, pred)
    requires Reads(f, pos, BlockBits(dc, ac, c, pred))
    ensures BlockAt(dc, ac, q, f, pos, pred) ==
            Outcome.Decoded(Block(Scaled(c, q), Behind(c, 1, 64), pos + |BlockBits(dc, ac, c, pred)|))
    ensures DcAt(dc, f, pos, pred) == c[0]
  {
    hide *;
    BlockParts(dc, ac, c, pred);
    BlockAtIs(dc, ac, q, f, pos, pred);
    StartUpTo(c, q);
    ReadsSplit(f, pos, ItemBits(dc, DcItem(c, pred)), ItemsBits(ac, AcItems(c)));
    DcDecodes(dc, f, pos, c, pred);
    AcDecodes(ac, q, f, DecodeAt(dc, f, pos).next, c, DcOnly(Wrap16(c[0] * q[0])));
  }
}
