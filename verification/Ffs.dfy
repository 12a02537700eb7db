/** Finding the first set bit of a word as src/kservice.c does, with its table of bytes. */
module Ffs {
  import opened ByteTable

  /** 1 << p */
  function Mask(p: nat): bv32
    requires p < 32
  {
    if p == 0 then 0x1 else if p == 1 then 0x2 else if p == 2 then 0x4 else if p == 3 then 0x8
    else if p == 4 then 0x10 else if p == 5 then 0x20 else if p == 6 then 0x40 else if p == 7 then 0x80
    else if p == 8 then 0x100 else if p == 9 then 0x200 else if p == 10 then 0x400 else if p == 11 then 0x800
    else if p == 12 then 0x1000 else if p == 13 then 0x2000 else if p == 14 then 0x4000 else if p == 15 then 0x8000
    else if p == 16 then 0x10000 else if p == 17 then 0x20000 else if p == 18 then 0x40000 else if p == 19 then 0x80000
    else if p == 20 then 0x100000 else if p == 21 then 0x200000 else if p == 22 then 0x400000 else if p == 23 then 0x800000
    else if p == 24 then 0x1000000 else if p == 25 then 0x2000000 else if p == 26 then 0x4000000 else if p == 27 then 0x8000000
    else if p == 28 then 0x10000000 else if p == 29 then 0x20000000 else if p == 30 then 0x40000000 else 0x8000_0000
  }

  predicate Bit(v: bv32, p: nat)
    requires p < 32
  {
    v & Mask(p) != 0
  }

  // ----- The table of bytes

  function Row0(): seq<nat> {
    [0, 0, 1, 0, 2, 0, 1, 0, 3, 0, 1, 0, 2, 0, 1, 0]
  }

  function Row1(): seq<nat> {
    [4, 0, 1, 0, 2, 0, 1, 0, 3, 0, 1, 0, 2, 0, 1, 0]
  }

  function Row2(): seq<nat> {
    [5, 0, 1, 0, 2, 0, 1, 0, 3, 0, 1, 0, 2, 0, 1, 0]
  }

  function Row3(): seq<nat> {
    [4, 0, 1, 0, 2, 0, 1, 0, 3, 0, 1, 0, 2, 0, 1, 0]
  }

  function Row4(): seq<nat> {
    [6, 0, 1, 0, 2, 0, 1, 0, 3, 0, 1, 0, 2, 0, 1, 0]
  }

  function Row5(): seq<nat> {
    [4, 0, 1, 0, 2, 0, 1, 0, 3, 0, 1, 0, 2, 0, 1, 0]
  }

  function Row6(): seq<nat> {
    [5, 0, 1, 0, 2, 0, 1, 0, 3, 0, 1, 0, 2, 0, 1, 0]
  }

  function Row7(): seq<nat> {
    [4, 0, 1, 0, 2, 0, 1, 0, 3, 0, 1, 0, 2, 0, 1, 0]
  }

  function Row8(): seq<nat> {
    [7, 0, 1, 0, 2, 0, 1, 0, 3, 0, 1, 0, 2, 0, 1, 0]
  }

  function Row9(): seq<nat> {
    [4, 0, 1, 0, 2, 0, 1, 0, 3, 0, 1, 0, 2, 0, 1, 0]
  }

  function RowA(): seq<nat> {
    [5, 0, 1, 0, 2, 0, 1, 0, 3, 0, 1, 0, 2, 0, 1, 0]
  }

  function RowB(): seq<nat> {
    [4, 0, 1, 0, 2, 0, 1, 0, 3, 0, 1, 0, 2, 0, 1, 0]
  }

  function RowC(): seq<nat> {
    [6, 0, 1, 0, 2, 0, 1, 0, 3, 0, 1, 0, 2, 0, 1, 0]
  }

  function RowD(): seq<nat> {
    [4, 0, 1, 0, 2, 0, 1, 0, 3, 0, 1, 0, 2, 0, 1, 0]
  }

  function RowE(): seq<nat> {
    [5, 0, 1, 0, 2, 0, 1, 0, 3, 0, 1, 0, 2, 0, 1, 0]
  }

  function RowF(): seq<nat> {
    [4, 0, 1, 0, 2, 0, 1, 0, 3, 0, 1, 0, 2, 0, 1, 0]
  }

  function Row(h: bv8): (r: seq<nat>)
    ensures |r| == 16
  {
    if h == 0 then Row0()
    else if h == 1 then Row1()
    else if h == 2 then Row2()
    else if h == 3 then Row3()
    else if h == 4 then Row4()
    else if h == 5 then Row5()
    else if h == 6 then Row6()
    else if h == 7 then Row7()
    else if h == 8 then Row8()
    else if h == 9 then Row9()
    else if h == 10 then RowA()
    else if h == 11 then RowB()
    else if h == 12 then RowC()
    else if h == 13 then RowD()
    else if h == 14 then RowE()
    else RowF()
  }

  /** __lowest_bit_bitmap[b], its rows of sixteen chosen by the high four bits */
  function Lookup(b: bv8): nat {
    Row(b >> 4)[Nibble(b & 0xF)]
  }

  /** The lowest one bit of a byte; 0 for the byte that has none. */
  function Lowest(b: bv8): nat {
    if b & 0x01 != 0 then 0
    else if b & 0x02 != 0 then 1
    else if b & 0x04 != 0 then 2
    else if b & 0x08 != 0 then 3
    else if b & 0x10 != 0 then 4
    else if b & 0x20 != 0 then 5
    else if b & 0x40 != 0 then 6
    else if b & 0x80 != 0 then 7
    else 0
  }

  lemma RowListed(h: bv8, row: seq<nat>, k: bv8)
    requires Shows(Lowest, row, k) && row == Row(h) && k == h << 4
    ensures Lists(Lowest, Row(h), h << 4)
  {
    hide Lowest, Row;
    ShownIsListed(Lowest, row, k);
  }

  lemma Row0Right()
    ensures Shows(Lowest, Row0(), 0)
  {
  }

  lemma Row1Right()
    ensures Shows(Lowest, Row1(), 0x10)
  {
  }

  lemma Row2Right()
    ensures Shows(Lowest, Row2(), 0x20)
  {
  }

  lemma Row3Right()
    ensures Shows(Lowest, Row3(), 0x30)
  {
  }

  lemma Row4Right()
    ensures Shows(Lowest, Row4(), 0x40)
  {
  }

  lemma Row5Right()
    ensures Shows(Lowest, Row5(), 0x50)
  {
  }

  lemma Row6Right()
    ensures Shows(Lowest, Row6(), 0x60)
  {
  }

  lemma Row7Right()
    ensures Shows(Lowest, Row7(), 0x70)
  {
  }

  lemma Row8Right()
    ensures Shows(Lowest, Row8(), 0x80)
  {
  }

  lemma Row9Right()
    ensures Shows(Lowest, Row9(), 0x90)
  {
  }

  lemma RowARight()
    ensures Shows(Lowest, RowA(), 0xa0)
  {
  }

  lemma RowBRight()
    ensures Shows(Lowest, RowB(), 0xb0)
  {
  }

  lemma RowCRight()
    ensures Shows(Lowest, RowC(), 0xc0)
  {
  }

  lemma RowDRight()
    ensures Shows(Lowest, RowD(), 0xd0)
  {
  }

  lemma RowERight()
    ensures Shows(Lowest, RowE(), 0xe0)
  {
  }

  lemma RowFRight()
    ensures Shows(Lowest, RowF(), 0xf0)
  {
  }

  lemma RowsRight(h: bv8)
    requires h <= 15
    ensures Lists(Lowest, Row(h), h << 4)
  {
    hide Lists, Shows, Lowest, Row0, Row1, Row2, Row3, Row4, Row5, Row6, Row7, Row8, Row9, RowA, RowB, RowC, RowD, RowE, RowF;
    if h == 0 {
      Row0Right();
      RowListed(h, Row0(), 0);
    } else if h == 1 {
      Row1Right();
      RowListed(h, Row1(), 0x10);
    } else if h == 2 {
      Row2Right();
      RowListed(h, Row2(), 0x20);
    } else if h == 3 {
      Row3Right();
      RowListed(h, Row3(), 0x30);
    } else if h == 4 {
      Row4Right();
      RowListed(h, Row4(), 0x40);
    } else if h == 5 {
      Row5Right();
      RowListed(h, Row5(), 0x50);
    } else if h == 6 {
      Row6Right();
      RowListed(h, Row6(), 0x60);
    } else if h == 7 {
      Row7Right();
      RowListed(h, Row7(), 0x70);
    } else if h == 8 {
      Row8Right();
      RowListed(h, Row8(), 0x80);
    } else if h == 9 {
      Row9Right();
      RowListed(h, Row9(), 0x90);
    } else if h == 10 {
      RowARight();
      RowListed(h, RowA(), 0xa0);
    } else if h == 11 {
      RowBRight();
      RowListed(h, RowB(), 0xb0);
    } else if h == 12 {
      RowCRight();
      RowListed(h, RowC(), 0xc0);
    } else if h == 13 {
      RowDRight();
      RowListed(h, RowD(), 0xd0);
    } else if h == 14 {
      RowERight();
      RowListed(h, RowE(), 0xe0);
    } else {
      RowFRight();
      RowListed(h, RowF(), 0xf0);
    }
  }

  /** The table holds the lowest one bit of every byte. */
  lemma LookupRight(b: bv8)
    ensures Lookup(b) == Lowest(b)
  {
    hide Lowest, Row;
    RowsRight(b >> 4);
    EntryOf(Lowest, Row(b >> 4), b);
  }

  // ----- The word

  function Byte0(v: bv32): bv8 { (v & 0xFF) as bv8 }
  function Byte1(v: bv32): bv8 { ((v & 0xFF00) >> 8) as bv8 }
  function Byte2(v: bv32): bv8 { ((v & 0xFF_0000) >> 16) as bv8 }
  function Byte3(v: bv32): bv8 { ((v & 0xFF00_0000) >> 24) as bv8 }

  /** __rt_ffs */
  function Ffs(v: bv32): nat {
    if v == 0 then 0
    else if v & 0xFF != 0 then Lookup(Byte0(v)) + 1
    else if v & 0xFF00 != 0 then Lookup(Byte1(v)) + 9
    else if v & 0xFF_0000 != 0 then Lookup(Byte2(v)) + 17
    else Lookup(Byte3(v)) + 25
  }

  lemma LowestIsLowest(b: bv8)
    requires b != 0
    ensures Lowest(b) < 8 && Bit8(b, Lowest(b)) && forall i | 0 <= i < Lowest(b) :: !Bit8(b, i)
  {
  }

  lemma ZeroHasNoBit(i: nat)
    requires i < 8
    ensures !Bit8(0, i)
  {
  }

  /** The bits of byte b are the bits of the word from place k on. */
  ghost predicate IsPart(v: bv32, b: bv8, k: nat)
    requires k <= 24
  {
    forall i | 0 <= i < 8 :: Bit8(b, i) <==> Bit(v, k + i)
  }

  lemma Part0(v: bv32, i: nat)
    requires i < 8
    ensures Bit8(Byte0(v), i) <==> Bit(v, 0 + i)
  {
  }

  lemma Part1(v: bv32, i: nat)
    requires i < 8
    ensures Bit8(Byte1(v), i) <==> Bit(v, 8 + i)
  {
  }

  lemma Part2(v: bv32, i: nat)
    requires i < 8
    ensures Bit8(Byte2(v), i) <==> Bit(v, 16 + i)
  {
  }

  lemma Part3(v: bv32, i: nat)
    requires i < 8
    ensures Bit8(Byte3(v), i) <==> Bit(v, 24 + i)
  {
  }

  lemma Parts(v: bv32)
    ensures IsPart(v, Byte0(v), 0) && IsPart(v, Byte1(v), 8) && IsPart(v, Byte2(v), 16) && IsPart(v, Byte3(v), 24)
  {
    hide Bit, Bit8, Byte0, Byte1, Byte2, Byte3;
    forall i | 0 <= i < 8
      ensures Bit8(Byte0(v), i) <==> Bit(v, i)
      ensures Bit8(Byte1(v), i) <==> Bit(v, 8 + i)
      ensures Bit8(Byte2(v), i) <==> Bit(v, 16 + i)
      ensures Bit8(Byte3(v), i) <==> Bit(v, 24 + i)
    {
      Part0(v, i);
      Part1(v, i);
      Part2(v, i);
      Part3(v, i);
    }
  }

  /** A byte that is not zero holds the lowest one bit of its part of the word. */
  lemma FirstInPart(v: bv32, b: bv8, k: nat)
    requires k <= 24 && IsPart(v, b, k) && b != 0
    ensures Lowest(b) < 8 && Bit(v, k + Lowest(b)) && forall q | k <= q < k + Lowest(b) :: !Bit(v, q)
  {
    hide Bit, Bit8, Lowest;
    LowestIsLowest(b);
    forall q | k <= q < k + Lowest(b)
      ensures !Bit(v, q)
    {
      assert Bit8(b, q - k) <==> Bit(v, k + (q - k));
    }
  }

  lemma PartClear(v: bv32, b: bv8, k: nat)
    requires k <= 24 && IsPart(v, b, k) && b == 0
    ensures forall q | k <= q < k + 8 :: !Bit(v, q)
  {
    hide Bit, Bit8;
    forall q | k <= q < k + 8
      ensures !Bit(v, q)
    {
      ZeroHasNoBit(q - k);
      assert Bit8(b, q - k) <==> Bit(v, k + (q - k));
    }
  }

  lemma MaskedBytes(v: bv32)
    ensures v & 0xFF == 0 <==> Byte0(v) == 0
    ensures v & 0xFF00 == 0 <==> Byte1(v) == 0
    ensures v & 0xFF_0000 == 0 <==> Byte2(v) == 0
    ensures v & 0xFF00_0000 == 0 <==> Byte3(v) == 0
  {
  }

  lemma NoByteLeft(v: bv32)
    requires v != 0 && v & 0xFF == 0 && v & 0xFF00 == 0 && v & 0xFF_0000 == 0
    ensures v & 0xFF00_0000 != 0
  {
  }

  /** __rt_ffs finds the lowest one bit, counted from 1; it returns 0 exactly for 0. */
  lemma FfsFindsLowest(v: bv32)
    ensures v == 0 <==> Ffs(v) == 0
    ensures v != 0 ==> Ffs(v) <= 32 && Bit(v, Ffs(v) - 1)
    ensures forall q | 0 <= q < Ffs(v) - 1 && q < 32 :: !Bit(v, q)
  {
    Parts(v);
    MaskedBytes(v);
    hide Bit, Bit8, IsPart, Lookup, Byte0, Byte1, Byte2, Byte3;
    if v == 0 {
    } else if v & 0xFF != 0 {
      LookupRight(Byte0(v));
      FirstInPart(v, Byte0(v), 0);
    } else {
      PartClear(v, Byte0(v), 0);
      if v & 0xFF00 != 0 {
        LookupRight(Byte1(v));
        FirstInPart(v, Byte1(v), 8);
      } else {
        PartClear(v, Byte1(v), 8);
        if v & 0xFF_0000 != 0 {
          LookupRight(Byte2(v));
          FirstInPart(v, Byte2(v), 16);
        } else {
          PartClear(v, Byte2(v), 16);
          NoByteLeft(v);
          LookupRight(Byte3(v));
          FirstInPart(v, Byte3(v), 24);
        }
      }
    }
  }

  // ----- Setting and clearing a bit

  function Up(a: bv32): bv32 { a << 1 }

  predicate Apart(a: bv32, b: bv32) { a & b == 0 }

  lemma MaskUpLow(p: nat)
    requires 0 < p <= 16
    ensures Mask(p) == Up(Mask(p - 1))
  {
  }

  lemma MaskUpHigh(p: nat)
    requires 16 < p < 32
    ensures Mask(p) == Up(Mask(p - 1))
  {
  }

  lemma UpApart(a: bv32, b: bv32)
    requires Apart(a, b)
    ensures Apart(Up(a), Up(b))
  {
  }

  lemma OneApart(b: bv32)
    ensures Apart(Mask(0), Up(b))
  {
  }

  lemma MaskUp(p: nat)
    requires 0 < p < 32
    ensures Mask(p) == Up(Mask(p - 1))
  {
    hide Mask, Up;
    if p <= 16 {
      MaskUpLow(p);
    } else {
      MaskUpHigh(p);
    }
  }

  lemma {:induction false} MasksApart(p: nat, q: nat)
    requires p < q < 32
    ensures Apart(Mask(p), Mask(q))
  {
    hide Mask, Up, Apart;
    MaskUp(q);
    if p == 0 {
      OneApart(Mask(q - 1));
    } else {
      MaskUp(p);
      MasksApart(p - 1, q - 1);
      UpApart(Mask(p - 1), Mask(q - 1));
    }
  }

  lemma ApartSwaps(a: bv32, b: bv32)
    requires Apart(a, b)
    ensures Apart(b, a)
  {
  }

  lemma OrElsewhere(v: bv32, m: bv32, k: bv32)
    requires Apart(m, k)
    ensures (v | m) & k == v & k
  {
  }

  lemma OrHere(v: bv32, m: bv32)
    requires m != 0
    ensures (v | m) & m != 0
  {
  }

  lemma AndHere(v: bv32, m: bv32)
    ensures (v & !m) & m == 0
  {
  }

  /** Bits seen through a mask. */
  predicate On(v: bv32, m: bv32) { v & m != 0 }

  function With(v: bv32, m: bv32): bv32 { v | m }

  function Without(v: bv32, m: bv32): bv32 { v & !m }

  lemma WithElsewhere(v: bv32, m: bv32, k: bv32)
    requires Apart(m, k)
    ensures On(With(v, m), k) <==> On(v, k)
  {
    OrElsewhere(v, m, k);
  }

  lemma Untouched(m: bv32, k: bv32)
    requires Apart(m, k)
    ensures Without(k, m) == k
  {
  }

  lemma WithoutMoves(v: bv32, m: bv32, k: bv32)
    ensures On(Without(v, m), k) <==> On(v, Without(k, m))
  {
  }

  lemma WithoutElsewhere(v: bv32, m: bv32, k: bv32)
    requires Apart(m, k)
    ensures On(Without(v, m), k) <==> On(v, k)
  {
    hide On, Without, Apart;
    Untouched(m, k);
    WithoutMoves(v, m, k);
  }

  lemma WithHere(v: bv32, m: bv32)
    requires m != 0
    ensures On(With(v, m), m)
  {
    OrHere(v, m);
  }

  lemma WithoutHere(v: bv32, m: bv32)
    ensures !On(Without(v, m), m)
  {
    AndHere(v, m);
  }

  lemma MaskNonzero(p: nat)
    requires p < 32
    ensures Mask(p) != 0
  {
  }

  lemma BitIsOn(v: bv32, p: nat)
    requires p < 32
    ensures Bit(v, p) <==> On(v, Mask(p))
  {
    hide Mask;
  }

  /** Or-ing in 1 << p sets bit p and no other; and-ing it out clears bit p and no other. */
  lemma SetAndClear(v: bv32, p: nat, q: nat)
    requires p < 32 && q < 32
    ensures Bit(With(v, Mask(p)), q) <==> p == q || Bit(v, q)
    ensures Bit(Without(v, Mask(p)), q) <==> p != q && Bit(v, q)
  {
    hide Mask, On, With, Without, Apart, Bit;
    BitIsOn(v, q);
    BitIsOn(With(v, Mask(p)), q);
    BitIsOn(Without(v, Mask(p)), q);
    if p == q {
      MaskNonzero(p);
      WithHere(v, Mask(p));
      WithoutHere(v, Mask(p));
    } else {
      if p < q {
        MasksApart(p, q);
      } else {
        MasksApart(q, p);
        ApartSwaps(Mask(q), Mask(p));
      }
      WithElsewhere(v, Mask(p), Mask(q));
      WithoutElsewhere(v, Mask(p), Mask(q));
    }
  }

  ghost predicate Represents(v: bv32, group: set<nat>) {
    forall p | 0 <= p < 32 :: Bit(v, p) <==> p in group
  }

  lemma RepresentsUpdates(v: bv32, group: set<nat>, p: nat)
    requires Represents(v, group) && p < 32
    ensures Represents(With(v, Mask(p)), group + {p}) && Represents(Without(v, Mask(p)), group - {p})
  {
    hide Mask, With, Without, Bit;
    forall q | 0 <= q < 32
      ensures Bit(With(v, Mask(p)), q) <==> q in group + {p}
      ensures Bit(Without(v, Mask(p)), q) <==> q in group - {p}
    {
      SetAndClear(v, p, q);
    }
  }

  lemma NonzeroIfBit(v: bv32, p: nat)
    requires p < 32 && Bit(v, p)
    ensures v != 0
  {
  }

  lemma ZeroRepresents()
    ensures Represents(0, {})
  {
  }

  lemma ZeroIffEmpty(v: bv32, group: set<nat>)
    requires Represents(v, group) && forall p | p in group :: p < 32
    ensures v == 0 <==> group == {}
  {
    if p :| p in group {
      assert Bit(v, p);
      NonzeroIfBit(v, p);
    } else {
      FfsFindsLowest(v);
    }
  }

  /** v |= 1 << p */
  method Set(v: bv32, p: nat, ghost group: set<nat>) returns (w: bv32)
    requires Represents(v, group) && p < 32
    ensures Represents(w, group + {p})
  {
    hide Mask, With, Represents;
    w := With(v, Mask(p));
    RepresentsUpdates(v, group, p);
  }

  /** v &= ~(1 << p) */
  method Clear(v: bv32, p: nat, ghost group: set<nat>) returns (w: bv32)
    requires Represents(v, group) && p < 32
    ensures Represents(w, group - {p})
  {
    hide Mask, Without, Represents;
    w := Without(v, Mask(p));
    RepresentsUpdates(v, group, p);
  }
}
