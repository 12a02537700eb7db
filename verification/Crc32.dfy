/** The CRC of applications/crc_32.c: a table loop for the reflected polynomial
    0xEDB88320, as in section 8 of RFC 1952. */
module Crc32 {
  import R = Register
  import opened ByteTable

  const POLYNOMIAL: bv32 := 0xEDB8_8320
  const INIT: bv32 := 0xFFFF_FFFF
  const BITS: nat := 8

  // ----- Bit by bit

  /** One bit of the long division, reflected. */
  function Shift(c: bv32): bv32 {
    if c & 1 == 1 then (c >> 1) ^ POLYNOMIAL else c >> 1
  }

  function Xor(a: bv32, b: bv32): bv32 { a ^ b }

  function Wide(b: bv8): bv32 { b as bv32 }

  /** The register after dividing `data` bit by bit, started at `c`. */
  function Run(c: bv32, data: seq<bv8>): bv32 {
    R.RunOver(Shift, Xor, BITS, Wide, c, data)
  }

  // ----- The table, in rows of sixteen

  function Row0(): seq<bv32> {
    [0x00000000, 0x77073096, 0xEE0E612C, 0x990951BA, 0x076DC419, 0x706AF48F, 0xE963A535, 0x9E6495A3,
     0x0EDB8832, 0x79DCB8A4, 0xE0D5E91E, 0x97D2D988, 0x09B64C2B, 0x7EB17CBD, 0xE7B82D07, 0x90BF1D91]
  }

  function Row1(): seq<bv32> {
    [0x1DB71064, 0x6AB020F2, 0xF3B97148, 0x84BE41DE, 0x1ADAD47D, 0x6DDDE4EB, 0xF4D4B551, 0x83D385C7,
     0x136C9856, 0x646BA8C0, 0xFD62F97A, 0x8A65C9EC, 0x14015C4F, 0x63066CD9, 0xFA0F3D63, 0x8D080DF5]
  }

  function Row2(): seq<bv32> {
    [0x3B6E20C8, 0x4C69105E, 0xD56041E4, 0xA2677172, 0x3C03E4D1, 0x4B04D447, 0xD20D85FD, 0xA50AB56B,
     0x35B5A8FA, 0x42B2986C, 0xDBBBC9D6, 0xACBCF940, 0x32D86CE3, 0x45DF5C75, 0xDCD60DCF, 0xABD13D59]
  }

  function Row3(): seq<bv32> {
    [0x26D930AC, 0x51DE003A, 0xC8D75180, 0xBFD06116, 0x21B4F4B5, 0x56B3C423, 0xCFBA9599, 0xB8BDA50F,
     0x2802B89E, 0x5F058808, 0xC60CD9B2, 0xB10BE924, 0x2F6F7C87, 0x58684C11, 0xC1611DAB, 0xB6662D3D]
  }

  function Row4(): seq<bv32> {
    [0x76DC4190, 0x01DB7106, 0x98D220BC, 0xEFD5102A, 0x71B18589, 0x06B6B51F, 0x9FBFE4A5, 0xE8B8D433,
     0x7807C9A2, 0x0F00F934, 0x9609A88E, 0xE10E9818, 0x7F6A0DBB, 0x086D3D2D, 0x91646C97, 0xE6635C01]
  }

  function Row5(): seq<bv32> {
    [0x6B6B51F4, 0x1C6C6162, 0x856530D8, 0xF262004E, 0x6C0695ED, 0x1B01A57B, 0x8208F4C1, 0xF50FC457,
     0x65B0D9C6, 0x12B7E950, 0x8BBEB8EA, 0xFCB9887C, 0x62DD1DDF, 0x15DA2D49, 0x8CD37CF3, 0xFBD44C65]
  }

  function Row6(): seq<bv32> {
    [0x4DB26158, 0x3AB551CE, 0xA3BC0074, 0xD4BB30E2, 0x4ADFA541, 0x3DD895D7, 0xA4D1C46D, 0xD3D6F4FB,
     0x4369E96A, 0x346ED9FC, 0xAD678846, 0xDA60B8D0, 0x44042D73, 0x33031DE5, 0xAA0A4C5F, 0xDD0D7CC9]
  }

  function Row7(): seq<bv32> {
    [0x5005713C, 0x270241AA, 0xBE0B1010, 0xC90C2086, 0x5768B525, 0x206F85B3, 0xB966D409, 0xCE61E49F,
     0x5EDEF90E, 0x29D9C998, 0xB0D09822, 0xC7D7A8B4, 0x59B33D17, 0x2EB40D81, 0xB7BD5C3B, 0xC0BA6CAD]
  }

  function Row8(): seq<bv32> {
    [0xEDB88320, 0x9ABFB3B6, 0x03B6E20C, 0x74B1D29A, 0xEAD54739, 0x9DD277AF, 0x04DB2615, 0x73DC1683,
     0xE3630B12, 0x94643B84, 0x0D6D6A3E, 0x7A6A5AA8, 0xE40ECF0B, 0x9309FF9D, 0x0A00AE27, 0x7D079EB1]
  }

  function Row9(): seq<bv32> {
    [0xF00F9344, 0x8708A3D2, 0x1E01F268, 0x6906C2FE, 0xF762575D, 0x806567CB, 0x196C3671, 0x6E6B06E7,
     0xFED41B76, 0x89D32BE0, 0x10DA7A5A, 0x67DD4ACC, 0xF9B9DF6F, 0x8EBEEFF9, 0x17B7BE43, 0x60B08ED5]
  }

  function RowA(): seq<bv32> {
    [0xD6D6A3E8, 0xA1D1937E, 0x38D8C2C4, 0x4FDFF252, 0xD1BB67F1, 0xA6BC5767, 0x3FB506DD, 0x48B2364B,
     0xD80D2BDA, 0xAF0A1B4C, 0x36034AF6, 0x41047A60, 0xDF60EFC3, 0xA867DF55, 0x316E8EEF, 0x4669BE79]
  }

  function RowB(): seq<bv32> {
    [0xCB61B38C, 0xBC66831A, 0x256FD2A0, 0x5268E236, 0xCC0C7795, 0xBB0B4703, 0x220216B9, 0x5505262F,
     0xC5BA3BBE, 0xB2BD0B28, 0x2BB45A92, 0x5CB36A04, 0xC2D7FFA7, 0xB5D0CF31, 0x2CD99E8B, 0x5BDEAE1D]
  }

  function RowC(): seq<bv32> {
    [0x9B64C2B0, 0xEC63F226, 0x756AA39C, 0x026D930A, 0x9C0906A9, 0xEB0E363F, 0x72076785, 0x05005713,
     0x95BF4A82, 0xE2B87A14, 0x7BB12BAE, 0x0CB61B38, 0x92D28E9B, 0xE5D5BE0D, 0x7CDCEFB7, 0x0BDBDF21]
  }

  function RowD(): seq<bv32> {
    [0x86D3D2D4, 0xF1D4E242, 0x68DDB3F8, 0x1FDA836E, 0x81BE16CD, 0xF6B9265B, 0x6FB077E1, 0x18B74777,
     0x88085AE6, 0xFF0F6A70, 0x66063BCA, 0x11010B5C, 0x8F659EFF, 0xF862AE69, 0x616BFFD3, 0x166CCF45]
  }

  function RowE(): seq<bv32> {
    [0xA00AE278, 0xD70DD2EE, 0x4E048354, 0x3903B3C2, 0xA7672661, 0xD06016F7, 0x4969474D, 0x3E6E77DB,
     0xAED16A4A, 0xD9D65ADC, 0x40DF0B66, 0x37D83BF0, 0xA9BCAE53, 0xDEBB9EC5, 0x47B2CF7F, 0x30B5FFE9]
  }

  function RowF(): seq<bv32> {
    [0xBDBDF21C, 0xCABAC28A, 0x53B39330, 0x24B4A3A6, 0xBAD03605, 0xCDD70693, 0x54DE5729, 0x23D967BF,
     0xB3667A2E, 0xC4614AB8, 0x5D681B02, 0x2A6F2B94, 0xB40BBE37, 0xC30C8EA1, 0x5A05DF1B, 0x2D02EF8D]
  }

  function Row(h: bv8): (r: seq<bv32>)
    ensures |r| == 16
  {
    if h == 0 then Row0()
    else if h == 1 then Row1()
    else if h == 2 then Row2()
    else if h == 3 then Row3()
    else if h == 4 then Row4()
    else if h == 5 then Row5()
    else if h == 6 then Row6()
    else if h == 7 then Row7()
    else if h == 8 then Row8()
    else if h == 9 then Row9()
    else if h == 10 then RowA()
    else if h == 11 then RowB()
    else if h == 12 then RowC()
    else if h == 13 then RowD()
    else if h == 14 then RowE()
    else RowF()
  }

  /** crc32_table[idx] */
  function Entry(idx: bv8): bv32 {
    Row(idx >> 4)[Nibble(idx & 0xF)]
  }

  /** The remainder a byte leaves in an empty register. */
  function Turn(b: bv8): bv32 {
    R.Iter(Shift, Wide(b), BITS)
  }

  function Turn8(b: bv8): bv32 {
    Shift(Shift(Shift(Shift(Shift(Shift(Shift(Shift(Wide(b)))))))))
  }

  lemma TurnsEight()
    ensures forall b :: Turn8(b) == Turn(b)
  {
    hide Shift, Wide;
    forall b
      ensures Turn8(b) == Turn(b)
    {
      R.Eight(Shift, Wide(b));
    }
  }

  lemma RowListed(h: bv8, row: seq<bv32>, k: bv8)
    requires Shows(Turn8, row, k) && row == Row(h) && k == h << 4
    ensures Lists(Turn, Row(h), h << 4)
  {
    hide Turn8, Turn, Row;
    TurnsEight();
    Retold(Turn8, Turn, row, k);
  }

  lemma Row0Low()
    ensures Turn8(0) == 0x00000000 && Turn8(1) == 0x77073096 && Turn8(2) == 0xEE0E612C && Turn8(3) == 0x990951BA
    ensures Turn8(4) == 0x076DC419 && Turn8(5) == 0x706AF48F && Turn8(6) == 0xE963A535 && Turn8(7) == 0x9E6495A3
  {
  }

  lemma Row0High()
    ensures Turn8(8) == 0x0EDB8832 && Turn8(9) == 0x79DCB8A4 && Turn8(10) == 0xE0D5E91E && Turn8(11) == 0x97D2D988
    ensures Turn8(12) == 0x09B64C2B && Turn8(13) == 0x7EB17CBD && Turn8(14) == 0xE7B82D07 && Turn8(15) == 0x90BF1D91
  {
  }

  lemma Row0Right()
    ensures Shows(Turn8, Row0(), 0)
  {
    hide Turn8;
    Row0Low();
    Row0High();
  }

  lemma Row1Right()
    ensures Shows(Turn8, Row1(), 0x10)
  {
  }

  lemma Row2Right()
    ensures Shows(Turn8, Row2(), 0x20)
  {
  }

  lemma Row3Right()
    ensures Shows(Turn8, Row3(), 0x30)
  {
  }

  lemma Row4Right()
    ensures Shows(Turn8, Row4(), 0x40)
  {
  }

  lemma Row5Right()
    ensures Shows(Turn8, Row5(), 0x50)
  {
  }

  lemma Row6Right()
    ensures Shows(Turn8, Row6(), 0x60)
  {
  }

  lemma Row7Right()
    ensures Shows(Turn8, Row7(), 0x70)
  {
  }

  lemma Row8Right()
    ensures Shows(Turn8, Row8(), 0x80)
  {
  }

  lemma Row9Right()
    ensures Shows(Turn8, Row9(), 0x90)
  {
  }

  lemma RowARight()
    ensures Shows(Turn8, RowA(), 0xa0)
  {
  }

  lemma RowBRight()
    ensures Shows(Turn8, RowB(), 0xb0)
  {
  }

  lemma RowCRight()
    ensures Shows(Turn8, RowC(), 0xc0)
  {
  }

  lemma RowDRight()
    ensures Shows(Turn8, RowD(), 0xd0)
  {
  }

  lemma RowERight()
    ensures Shows(Turn8, RowE(), 0xe0)
  {
  }

  lemma RowFRight()
    ensures Shows(Turn8, RowF(), 0xf0)
  {
  }

  lemma RowsRight(h: bv8)
    requires h <= 15
    ensures Lists(Turn, Row(h), h << 4)
  {
    hide Lists, Shows, Turn, Turn8, Row0, Row1, Row2, Row3, Row4, Row5, Row6, Row7, Row8, Row9, RowA, RowB, RowC, RowD, RowE, RowF;
    if h == 0 {
      Row0Right();
      RowListed(h, Row0(), 0);
    } else if h == 1 {
      Row1Right();
      RowListed(h, Row1(), 0x10);
    } else if h == 2 {
      Row2Right();
      RowListed(h, Row2(), 0x20);
    } else if h == 3 {
      Row3Right();
      RowListed(h, Row3(), 0x30);
    } else if h == 4 {
      Row4Right();
      RowListed(h, Row4(), 0x40);
    } else if h == 5 {
      Row5Right();
      RowListed(h, Row5(), 0x50);
    } else if h == 6 {
      Row6Right();
      RowListed(h, Row6(), 0x60);
    } else if h == 7 {
      Row7Right();
      RowListed(h, Row7(), 0x70);
    } else if h == 8 {
      Row8Right();
      RowListed(h, Row8(), 0x80);
    } else if h == 9 {
      Row9Right();
      RowListed(h, Row9(), 0x90);
    } else if h == 10 {
      RowARight();
      RowListed(h, RowA(), 0xa0);
    } else if h == 11 {
      RowBRight();
      RowListed(h, RowB(), 0xb0);
    } else if h == 12 {
      RowCRight();
      RowListed(h, RowC(), 0xc0);
    } else if h == 13 {
      RowDRight();
      RowListed(h, RowD(), 0xd0);
    } else if h == 14 {
      RowERight();
      RowListed(h, RowE(), 0xe0);
    } else {
      RowFRight();
      RowListed(h, RowF(), 0xf0);
    }
  }

  /** Every table entry is the remainder of its index. */
  lemma EntryRight(idx: bv8)
    ensures Entry(idx) == Turn(idx)
  {
    hide Turn, Row;
    RowsRight(idx >> 4);
    EntryOf(Turn, Row(idx >> 4), idx);
  }

  // ----- The laws of this register

  lemma ShiftInjective(c: bv32, d: bv32)
    requires Shift(c) == Shift(d)
    ensures c == d
  {
  }

  lemma XorTwice(a: bv32, x: bv32)
    ensures (a ^ x) ^ x == a
  {
  }

  lemma XorCancels(a: bv32, b: bv32, x: bv32)
    requires Xor(a, x) == Xor(b, x)
    ensures a == b
  {
    XorTwice(a, x);
    XorTwice(b, x);
  }

  lemma Reversible()
    ensures R.Injective(Shift) && R.Cancels(Xor)
  {
    forall a, b | Shift(a) == Shift(b)
      ensures a == b
    {
      ShiftInjective(a, b);
    }
    forall a, b, x: bv32 | Xor(a, x) == Xor(b, x)
      ensures a == b
    {
      XorCancels(a, b, x);
    }
  }

  lemma UpIsEven(x: bv32, g: bv32)
    ensures (x ^ (g << 1)) & 1 == x & 1
  {
  }

  lemma UpComesDown(g: bv32)
    requires g & 0x8000_0000 == 0
    ensures (g << 1) >> 1 == g
  {
  }

  lemma HalfOfXor(x: bv32, u: bv32)
    ensures (x ^ u) >> 1 == (x >> 1) ^ (u >> 1)
  {
  }

  lemma XorSwap(a: bv32, b: bv32, c: bv32)
    ensures (a ^ b) ^ c == (a ^ c) ^ b
  {
  }

  lemma ShiftEven(x: bv32)
    requires x & 1 == 0
    ensures Shift(x) == x >> 1
  {
  }

  lemma ShiftOdd(x: bv32)
    requires x & 1 == 1
    ensures Shift(x) == (x >> 1) ^ POLYNOMIAL
  {
  }

  lemma LowBit(x: bv32)
    ensures x & 1 == 0 || x & 1 == 1
  {
  }

  /** What was added one place up comes out added one place down. */
  lemma ShiftXor(x: bv32, g: bv32)
    requires g & 0x8000_0000 == 0
    ensures Shift(Xor(x, g << 1)) == Xor(Shift(x), g)
  {
    UpIsEven(x, g);
    UpComesDown(g);
    HalfOfXor(x, g << 1);
    LowBit(x);
    if x & 1 == 1 {
      ShiftOdd(x);
      ShiftOdd(x ^ (g << 1));
      XorSwap(x >> 1, g, POLYNOMIAL);
    } else {
      ShiftEven(x);
      ShiftEven(x ^ (g << 1));
    }
  }

  /** A value with room above it, moved up k places, slides down in k turns. */
  lemma Carry1(h: bv32)
    requires h & 0x8000_0000 == 0
    ensures R.Carries(Shift, Xor, h << 1, h, 1)
  {
    hide Shift, Xor;
    forall x: bv32
      ensures R.Iter(Shift, Xor(x, h << 1), 1) == Xor(R.Iter(Shift, x, 1), h)
    {
      ShiftXor(x, h);
      R.Once(Shift, Xor(x, h << 1));
      R.Once(Shift, x);
    }
  }

  lemma Carry2(h: bv32)
    requires h & 0xC000_0000 == 0
    ensures R.Carries(Shift, Xor, h << 2, h, 2)
  {
    assert (h << 1) & 0x8000_0000 == 0 && h & 0x8000_0000 == 0 && (h << 1) << 1 == h << 2;
    Carry1(h << 1);
    Carry1(h);
    R.CarriesOn(Shift, Xor, (h << 1) << 1, h << 1, h, 1, 1);
  }

  lemma Carry4(h: bv32)
    requires h & 0xF000_0000 == 0
    ensures R.Carries(Shift, Xor, h << 4, h, 4)
  {
    assert (h << 2) & 0xC000_0000 == 0 && h & 0xC000_0000 == 0 && (h << 2) << 2 == h << 4;
    Carry2(h << 2);
    Carry2(h);
    R.CarriesOn(Shift, Xor, (h << 2) << 2, h << 2, h, 2, 2);
  }

  lemma Carry8(h: bv32)
    requires h & 0xFF00_0000 == 0
    ensures R.Carries(Shift, Xor, h << 8, h, BITS)
  {
    assert (h << 4) & 0xF000_0000 == 0 && h & 0xF000_0000 == 0 && (h << 4) << 4 == h << 8;
    Carry4(h << 4);
    Carry4(h);
    R.CarriesOn(Shift, Xor, (h << 4) << 4, h << 4, h, 4, 4);
  }

  lemma Carry16(h: bv32)
    requires h & 0xFFFF_0000 == 0
    ensures R.Carries(Shift, Xor, h << 16, h, BITS + BITS)
  {
    assert (h << 8) & 0xFF00_0000 == 0 && h & 0xFF00_0000 == 0 && (h << 8) << 8 == h << 16;
    Carry8(h << 8);
    Carry8(h);
    R.CarriesOn(Shift, Xor, (h << 8) << 8, h << 8, h, BITS, BITS);
  }

  lemma Carry24(h: bv32)
    requires h & 0xFFFF_FF00 == 0
    ensures R.Carries(Shift, Xor, h << 24, h, BITS + BITS + BITS)
  {
    assert (h << 16) & 0xFF00_0000 == 0 && h & 0xFFFF_0000 == 0 && (h << 16) << 8 == h << 24;
    Carry8(h << 16);
    Carry16(h);
    R.CarriesOn(Shift, Xor, (h << 16) << 8, h << 16, h, BITS, BITS + BITS);
  }

  // ----- The table loop is the division

  function Low(c: bv32): bv8 { (c & 0xFF) as bv8 }

  function Rest(c: bv32): bv32 { c >> 8 }

  function Up8(a: bv32): bv32 { a << 8 }

  function Index(c: bv32, b: bv8): bv8 {
    Low(c) ^ b
  }

  lemma Halves(c: bv32)
    ensures c == Xor(Wide(Low(c)), Up8(Rest(c))) && Rest(c) & 0xFF00_0000 == 0
  {
  }

  lemma WideXor(x: bv8, b: bv8)
    ensures Wide(x ^ b) == Xor(Wide(x), Wide(b))
  {
  }

  lemma XorSwaps(a: bv32, b: bv32)
    ensures Xor(a, b) == Xor(b, a)
  {
  }

  lemma XorAssociates(c: bv32, a: bv32, b: bv32)
    ensures Xor(Xor(c, a), b) == Xor(c, Xor(a, b))
  {
  }

  lemma XorMoves(a: bv32, b: bv32, c: bv32)
    ensures Xor(Xor(a, b), c) == Xor(Xor(a, c), b)
  {
    hide Xor;
    XorAssociates(a, b, c);
    XorAssociates(a, c, b);
    XorSwaps(b, c);
  }

  lemma IndexParts(c: bv32, b: bv8)
    ensures Xor(c, Wide(b)) == Xor(Wide(Index(c, b)), Up8(Rest(c)))
  {
    hide Wide, Low, Rest, Up8, Xor;
    Halves(c);
    WideXor(Low(c), b);
    XorMoves(Wide(Low(c)), Up8(Rest(c)), Wide(b));
  }

  lemma RestCarries(c: bv32)
    ensures R.Carries(Shift, Xor, Up8(Rest(c)), Rest(c), BITS)
  {
    Halves(c);
    hide Shift, Xor, Rest;
    Carry8(Rest(c));
  }

  /** One table lookup absorbs a byte. */
  lemma TableStep(c: bv32, b: bv8)
    ensures Xor(Rest(c), Entry(Index(c, b))) == R.Absorb(Shift, Xor, BITS, c, Wide(b))
  {
    hide Shift, Xor, Wide, Index, Entry, Rest, Up8;
    var low := Wide(Index(c, b));
    IndexParts(c, b);
    RestCarries(c);
    assert R.Iter(Shift, Xor(low, Up8(Rest(c))), BITS) == Xor(R.Iter(Shift, low, BITS), Rest(c));
    EntryRight(Index(c, b));
    XorSwaps(Turn(Index(c, b)), Rest(c));
  }

  /** crc32_cyc_cal */
  method CyclicCrc(init: bv32, data: seq<bv8>) returns (crc: bv32)
    ensures crc == Run(init, data)
  {
    crc := init;
    ghost var wide := R.Mapped(Wide, data);
    for i := 0 to |data|
      invariant R.Run(Shift, Xor, BITS, crc, wide[i..]) == Run(init, data)
    {
      TableStep(crc, data[i]);
      var idx := Index(crc, data[i]);
      crc := Xor(Rest(crc), Entry(idx));
      assert wide[i..][1..] == wide[i + 1..];
    }
  }

  /** The checksum of a whole message. */
  function Checksum(data: seq<bv8>): bv32 {
    Run(INIT, data) ^ INIT
  }

  /** crc32_cal */
  method Crc(data: seq<bv8>) returns (crc: bv32)
    ensures crc == Checksum(data)
  {
    crc := CyclicCrc(INIT, data);
    crc := crc ^ INIT;
  }

  // ----- What the checksum distinguishes

  /** A message may be fed in pieces. */
  lemma RunConcat(c: bv32, a: seq<bv8>, b: seq<bv8>)
    ensures Run(c, a + b) == Run(Run(c, a), b)
  {
    R.RunOverConcat(Shift, Xor, BITS, Wide, c, a, b);
  }

  function Up16(a: bv32): bv32 { a << 16 }

  function Up24(a: bv32): bv32 { a << 24 }

  /** Four bytes as the little-endian word they form. */
  function Word(b0: bv8, b1: bv8, b2: bv8, b3: bv8): bv32 {
    Xor(Xor(Xor(Wide(b0), Up8(Wide(b1))), Up16(Wide(b2))), Up24(Wide(b3)))
  }

  lemma XorAll(c: bv32, a: bv32, b: bv32, d: bv32, e: bv32)
    ensures Xor(Xor(Xor(Xor(c, a), b), d), e) == Xor(c, Xor(Xor(Xor(a, b), d), e))
  {
    hide Xor;
    XorAssociates(c, a, b);
    XorAssociates(c, Xor(a, b), d);
    XorAssociates(c, Xor(Xor(a, b), d), e);
  }

  lemma ByteFits(b: bv8)
    ensures Wide(b) & 0xFFFF_FF00 == 0 && Wide(b) & 0xFFFF_0000 == 0 && Wide(b) & 0xFF00_0000 == 0
  {
  }

  lemma ByteCarries(b: bv8)
    ensures R.Carries(Shift, Xor, Up8(Wide(b)), Wide(b), BITS)
    ensures R.Carries(Shift, Xor, Up16(Wide(b)), Wide(b), BITS + BITS)
    ensures R.Carries(Shift, Xor, Up24(Wide(b)), Wide(b), BITS + BITS + BITS)
  {
    ByteFits(b);
    hide Shift, Xor, Wide;
    Carry8(Wide(b));
    Carry16(Wide(b));
    Carry24(Wide(b));
  }

  /** Four bytes are absorbed as one 32-bit word. */
  lemma RunWord(c: bv32, b0: bv8, b1: bv8, b2: bv8, b3: bv8)
    ensures Run(c, [b0, b1, b2, b3]) == R.Iter(Shift, Xor(c, Word(b0, b1, b2, b3)), 4 * BITS)
  {
    hide Shift, Xor, Wide, Up8, Up16, Up24;
    ByteCarries(b1);
    ByteCarries(b2);
    ByteCarries(b3);
    var u1, u2, u3 := Up8(Wide(b1)), Up16(Wide(b2)), Up24(Wide(b3));
    R.RunFour(Shift, Xor, BITS, c, Wide(b0), Wide(b1), Wide(b2), Wide(b3), u1, u2, u3);
    XorAll(c, Wide(b0), u1, u2, u3);
    R.MappedFour(Wide, b0, b1, b2, b3);
  }

  lemma WordByte0(b0: bv8, b1: bv8, b2: bv8, b3: bv8)
    ensures Word(b0, b1, b2, b3) & 0xFF == Wide(b0)
  {
  }

  lemma WordByte1(b0: bv8, b1: bv8, b2: bv8, b3: bv8)
    ensures (Word(b0, b1, b2, b3) >> 8) & 0xFF == Wide(b1)
  {
  }

  lemma WordByte2(b0: bv8, b1: bv8, b2: bv8, b3: bv8)
    ensures (Word(b0, b1, b2, b3) >> 16) & 0xFF == Wide(b2)
  {
  }

  lemma WordByte3(b0: bv8, b1: bv8, b2: bv8, b3: bv8)
    ensures Word(b0, b1, b2, b3) >> 24 == Wide(b3)
  {
  }

  lemma WideInjective(a: bv8, b: bv8)
    requires Wide(a) == Wide(b)
    ensures a == b
  {
  }

  lemma WordFixesBytes(a0: bv8, a1: bv8, a2: bv8, a3: bv8, b0: bv8, b1: bv8, b2: bv8, b3: bv8)
    requires Word(a0, a1, a2, a3) == Word(b0, b1, b2, b3)
    ensures a0 == b0 && a1 == b1 && a2 == b2 && a3 == b3
  {
    hide Word, Wide;
    WordByte0(a0, a1, a2, a3);
    WordByte0(b0, b1, b2, b3);
    WideInjective(a0, b0);
    WordByte1(a0, a1, a2, a3);
    WordByte1(b0, b1, b2, b3);
    WideInjective(a1, b1);
    WordByte2(a0, a1, a2, a3);
    WordByte2(b0, b1, b2, b3);
    WideInjective(a2, b2);
    WordByte3(a0, a1, a2, a3);
    WordByte3(b0, b1, b2, b3);
    WideInjective(a3, b3);
  }

  lemma FourFix(c: bv32, s: seq<bv8>, t: seq<bv8>)
    requires |s| == |t| == 4 && Run(c, s) == Run(c, t)
    ensures s == t
  {
    hide Shift, Xor, Word, Run;
    var v, w := Word(s[0], s[1], s[2], s[3]), Word(t[0], t[1], t[2], t[3]);
    assert s == [s[0], s[1], s[2], s[3]] && t == [t[0], t[1], t[2], t[3]];
    RunWord(c, s[0], s[1], s[2], s[3]);
    RunWord(c, t[0], t[1], t[2], t[3]);
    Reversible();
    R.IterInjective(Shift, Xor(c, v), Xor(c, w), 4 * BITS);
    XorSwaps(c, v);
    XorSwaps(c, w);
    XorCancels(v, w, c);
    WordFixesBytes(s[0], s[1], s[2], s[3], t[0], t[1], t[2], t[3]);
  }

  /** Up to four bytes that leave the same register are the same bytes. */
  lemma ShortFix(c: bv32, s: seq<bv8>, t: seq<bv8>)
    requires |s| == |t| <= 4 && Run(c, s) == Run(c, t)
    ensures s == t
  {
    hide Run;
    var pad := [0, 0, 0, 0][|s|..];
    RunConcat(c, s, pad);
    RunConcat(c, t, pad);
    FourFix(c, s + pad, t + pad);
    assert s == (s + pad)[..|s|] && t == (t + pad)[..|s|];
  }

  lemma TellsFourBytes()
    ensures R.Tells(Shift, Xor, BITS, Wide, 4)
  {
    forall c: bv32, s: seq<bv8>, t: seq<bv8> |
      |s| == |t| <= 4 && R.RunOver(Shift, Xor, BITS, Wide, c, s) == R.RunOver(Shift, Xor, BITS, Wide, c, t)
      ensures s == t
    {
      ShortFix(c, s, t);
    }
  }

  /** Equal-length messages that differ only within four consecutive bytes never share
      a checksum: with the same checksum they are the same message. */
  lemma {:induction false} FourByteChangeShows(c: bv32, s: seq<bv8>, t: seq<bv8>, k: nat)
    requires R.AgreeBeside(s, t, k, 4) && Run(c, s) == Run(c, t)
    ensures s == t
  {
    Reversible();
    TellsFourBytes();
    R.ChangeShows(Shift, Xor, BITS, Wide, 4, c, s, t, k);
  }

  // ----- Bit by bit

  function Lone(b: bool): bv32 { if b then 1 else 0 }

  /** 1 << i */
  function One(i: nat): bv32
    requires i < 8
  {
    if i == 0 then 0x01 else if i == 1 then 0x02 else if i == 2 then 0x04 else if i == 3 then 0x08
    else if i == 4 then 0x10 else if i == 5 then 0x20 else if i == 6 then 0x40 else 0x80
  }

  /** Bit i of a byte, where it stands. */
  function Piece(x: bv8, i: nat): bv32
    requires i < 8
  {
    Wide(x & Mask8(i))
  }

  lemma PieceValue(x: bv8, i: nat)
    requires i < 8
    ensures Piece(x, i) == if Bit8(x, i) then One(i) else 0
  {
  }

  lemma OneUp(i: nat)
    requires 0 < i < 8
    ensures One(i) == One(i - 1) << 1 && One(i - 1) & 0x8000_0000 == 0
  {
  }

  lemma XorNothing(x: bv32)
    ensures Xor(x, 0) == x
  {
  }

  lemma CarryNothing(m: nat)
    ensures R.Carries(Shift, Xor, 0, 0, m)
  {
    hide Shift, Xor;
    forall x: bv32
      ensures R.Iter(Shift, Xor(x, 0), m) == Xor(R.Iter(Shift, x, m), 0)
    {
      XorNothing(x);
      XorNothing(R.Iter(Shift, x, m));
    }
  }

  lemma {:induction false} CarryOne(i: nat)
    requires i < 8
    ensures R.Carries(Shift, Xor, One(i), One(0), i)
  {
    if i > 0 {
      OneUp(i);
      Carry1(One(i - 1));
      CarryOne(i - 1);
      hide One, Shift, Xor;
      R.CarriesOn(Shift, Xor, One(i), One(i - 1), One(0), 1, i - 1);
    }
  }

  lemma PieceCarries(x: bv8, i: nat)
    requires i < 8
    ensures R.Carries(Shift, Xor, Piece(x, i), Lone(Bit8(x, i)), i)
  {
    PieceValue(x, i);
    assert One(0) == 1;
    hide Shift, Xor, Piece, Bit8, One;
    if Bit8(x, i) {
      CarryOne(i);
    } else {
      CarryNothing(i);
    }
  }

  lemma PiecesMake(x: bv8)
    ensures Xor(Xor(Xor(Xor(Xor(Xor(Xor(Piece(x, 0), Piece(x, 1)), Piece(x, 2)), Piece(x, 3)), Piece(x, 4)), Piece(x, 5)), Piece(x, 6)), Piece(x, 7)) == Wide(x)
  {
  }

  lemma XorEight(c: bv32, a0: bv32, a1: bv32, a2: bv32, a3: bv32, a4: bv32, a5: bv32, a6: bv32, a7: bv32)
    ensures Xor(Xor(Xor(Xor(Xor(Xor(Xor(Xor(c, a0), a1), a2), a3), a4), a5), a6), a7) ==
      Xor(c, Xor(Xor(Xor(Xor(Xor(Xor(Xor(a0, a1), a2), a3), a4), a5), a6), a7))
  {
    hide Xor;
    var s1 := Xor(a0, a1);
    var s2 := Xor(s1, a2);
    var s3 := Xor(s2, a3);
    var s4 := Xor(s3, a4);
    var s5 := Xor(s4, a5);
    var s6 := Xor(s5, a6);
    XorAssociates(c, a0, a1);
    XorAssociates(c, s1, a2);
    XorAssociates(c, s2, a3);
    XorAssociates(c, s3, a4);
    XorAssociates(c, s4, a5);
    XorAssociates(c, s5, a6);
    XorAssociates(c, s6, a7);
  }

  /** All of a byte added at once is its bits added one by one. */
  lemma PiecesAdded(c: bv32, x: bv8)
    ensures Xor(Xor(Xor(Xor(Xor(Xor(Xor(Xor(c, Piece(x, 0)), Piece(x, 1)), Piece(x, 2)), Piece(x, 3)), Piece(x, 4)), Piece(x, 5)), Piece(x, 6)), Piece(x, 7)) == Xor(c, Wide(x))
  {
    hide Xor, Wide, Piece;
    XorEight(c, Piece(x, 0), Piece(x, 1), Piece(x, 2), Piece(x, 3), Piece(x, 4), Piece(x, 5), Piece(x, 6), Piece(x, 7));
    PiecesMake(x);
  }

  /** Feeding a byte is feeding its bits, the lowest first. */
  lemma ByteIsSerial(c: bv32, x: bv8)
    ensures R.Absorb(Shift, Xor, BITS, c, Wide(x)) == R.RunOver(Shift, Xor, 1, Lone, c, Bits8(x))
  {
    hide Shift, Xor, Wide, Piece, Lone, Bit8, R.Absorb, R.RunOver, R.Carries;
    PiecesAdded(c, x);
    FirstPiece(x);
    PieceCarries(x, 1);
    PieceCarries(x, 2);
    PieceCarries(x, 3);
    PieceCarries(x, 4);
    PieceCarries(x, 5);
    PieceCarries(x, 6);
    PieceCarries(x, 7);
    R.SymbolIsSerial(Shift, Xor, Lone, c, Wide(x),
      Bit8(x, 0), Bit8(x, 1), Bit8(x, 2), Bit8(x, 3), Bit8(x, 4), Bit8(x, 5), Bit8(x, 6), Bit8(x, 7),
      Piece(x, 0), Piece(x, 1), Piece(x, 2), Piece(x, 3), Piece(x, 4), Piece(x, 5), Piece(x, 6), Piece(x, 7));
  }

  lemma FirstPiece(x: bv8)
    ensures Piece(x, 0) == Lone(Bit8(x, 0))
  {
    PieceValue(x, 0);
  }

  lemma BytesAreSerial()
    ensures R.Serial(Shift, Xor, BITS, Wide, Lone, Bits8)
  {
    forall c, x
      ensures R.Absorb(Shift, Xor, BITS, c, Wide(x)) == R.RunOver(Shift, Xor, 1, Lone, c, Bits8(x))
    {
      ByteIsSerial(c, x);
    }
  }

  /** Equal-length messages that differ only within 32 consecutive bits, across byte
      borders or not, never share a checksum: with the same checksum they are the same
      message. */
  lemma {:induction false} ThirtyTwoBitChangeShows(c: bv32, s: seq<bv8>, t: seq<bv8>, k: nat)
    requires R.AgreeBeside(R.BitsOf(Bits8, s), R.BitsOf(Bits8, t), k, 32) && Run(c, s) == Run(c, t)
    ensures s == t
  {
    hide Shift, Xor, Wide, Lone, Bits8;
    Reversible();
    TellsFourBytes();
    BytesAreBits();
    BytesAreSerial();
    R.BurstShows(Shift, Xor, BITS, Wide, Lone, Bits8, Byte8, 8, 4, c, s, t, k);
  }

  // ----- A known answer

  /** Eight turns on one byte. */
  function Fed(c: bv32, b: bv8): bv32 {
    Shift(Shift(Shift(Shift(Shift(Shift(Shift(Shift(c ^ Wide(b)))))))))
  }

  lemma FeedsByte(c: bv32, data: seq<bv8>, i: nat)
    requires i < |data|
    ensures Run(c, data[i..]) == Run(Fed(c, data[i]), data[i + 1..])
  {
    hide Shift;
    var b := data[i];
    R.Eight(Shift, Xor(c, Wide(b)));
    assert R.Mapped(Wide, [b]) == [Wide(b)];
    assert R.RunOver(Shift, Xor, BITS, Wide, c, [b]) == R.Run(Shift, Xor, BITS, R.Absorb(Shift, Xor, BITS, c, Wide(b)), []);
    assert data[i..] == [b] + data[i + 1..];
    RunConcat(c, [b], data[i + 1..]);
  }

  lemma FirstThreeFed()
    ensures Fed(0xFFFFFFFF, 0x31) == 0x7C231048 && Fed(0x7C231048, 0x32) == 0xB0ACBB32 && Fed(0xB0ACBB32, 0x33) == 0x77B79C2D
  {
  }

  lemma MiddleThreeFed()
    ensures Fed(0x77B79C2D, 0x34) == 0x641C1F5C && Fed(0x641C1F5C, 0x35) == 0x340AC5E3 && Fed(0x340AC5E3, 0x36) == 0xF68D2C9E
  {
  }

  lemma LastThreeFed()
    ensures Fed(0xF68D2C9E, 0x37) == 0xAFFC9660 && Fed(0xAFFC9660, 0x38) == 0x651F2550 && Fed(0x651F2550, 0x39) == 0x340BC6D9
  {
  }

  /** The CRC-32 of the nine characters 123456789, by which this variant is told from others. */
  lemma CheckValue()
    ensures Checksum([0x31, 0x32, 0x33, 0x34, 0x35, 0x36, 0x37, 0x38, 0x39]) == 0xCBF4_3926
  {
    FirstThreeFed();
    MiddleThreeFed();
    LastThreeFed();
    hide Run, Fed;
    var data: seq<bv8> := [0x31, 0x32, 0x33, 0x34, 0x35, 0x36, 0x37, 0x38, 0x39];
    assert data[0..] == data && data[9..] == [];
    FeedsByte(0xFFFFFFFF, data, 0);
    FeedsByte(0x7C231048, data, 1);
    FeedsByte(0xB0ACBB32, data, 2);
    FeedsByte(0x77B79C2D, data, 3);
    FeedsByte(0x641C1F5C, data, 4);
    FeedsByte(0x340AC5E3, data, 5);
    FeedsByte(0xF68D2C9E, data, 6);
    FeedsByte(0xAFFC9660, data, 7);
    FeedsByte(0x651F2550, data, 8);
    RunNothing(0x340BC6D9);
  }

  lemma RunNothing(c: bv32)
    ensures Run(c, []) == c
  {
  }
}
