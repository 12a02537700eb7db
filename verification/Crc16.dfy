/** The MODBUS CRC of applications/Gpio/Gpio.c and the frames of
    applications/Uart/UartDataLayer.c that carry it. */
module Crc16 {
  import R = Register
  import opened ByteTable

  const SEED: bv16 := 0xFFFF
  const POLYNOMIAL: bv16 := 0xA001
  const BITS: nat := 8

  /** One turn of the inner loop: shift right, and subtract the polynomial if a one
      fell out. */
  function Shift(c: bv16): bv16 {
    if c & 1 == 1 then (c >> 1) ^ POLYNOMIAL else c >> 1
  }

  function Xor(a: bv16, b: bv16): bv16 { a ^ b }

  function Wide(b: bv8): bv16 { b as bv16 }

  /** The CRC register after `data`, started at `c`. */
  function Run(c: bv16, data: seq<bv8>): bv16 {
    R.RunOver(Shift, Xor, BITS, Wide, c, data)
  }

  /** The inner loop of usModbusRTU_CRC: eight turns. */
  method TurnEight(start: bv16) returns (crc: bv16)
    ensures crc == R.Iter(Shift, start, BITS)
  {
    crc := start;
    var index := 0;
    while index < 8
      invariant 0 <= index <= 8
      invariant R.Iter(Shift, crc, 8 - index) == R.Iter(Shift, start, BITS)
    {
      ghost var c := crc;
      if crc & 1 == 1 {
        crc := crc >> 1;
        crc := crc ^ 0xA001;
      } else {
        crc := crc >> 1;
      }
      assert crc == Shift(c);
      index := index + 1;
    }
  }

  /** usModbusRTU_CRC */
  method ModbusCrc(data: seq<bv8>) returns (crc: bv16)
    ensures crc == Run(SEED, data)
  {
    hide Shift, Xor, Wide;
    crc := SEED;
    ghost var wide := R.Mapped(Wide, data);
    var i := 0;
    while i < |data|
      invariant 0 <= i <= |data|
      invariant R.Run(Shift, Xor, BITS, crc, wide[i..]) == Run(SEED, data)
    {
      crc := Xor(crc, Wide(data[i]));
      crc := TurnEight(crc);
      assert wide[i..][1..] == wide[i + 1..];
      i := i + 1;
    }
  }

  // ----- The laws of this register

  lemma ShiftInjective(c: bv16, d: bv16)
    requires Shift(c) == Shift(d)
    ensures c == d
  {
  }

  lemma XorTwice(a: bv16, x: bv16)
    ensures (a ^ x) ^ x == a
  {
  }

  lemma XorCancels(a: bv16, b: bv16, x: bv16)
    requires Xor(a, x) == Xor(b, x)
    ensures a == b
  {
    XorTwice(a, x);
    XorTwice(b, x);
  }

  lemma Reversible()
    ensures R.Injective(Shift) && R.Cancels(Xor)
  {
    forall a, b | Shift(a) == Shift(b)
      ensures a == b
    {
      ShiftInjective(a, b);
    }
    forall a, b, x: bv16 | Xor(a, x) == Xor(b, x)
      ensures a == b
    {
      XorCancels(a, b, x);
    }
  }

  lemma UpIsEven(x: bv16, g: bv16)
    ensures (x ^ (g << 1)) & 1 == x & 1
  {
  }

  lemma UpComesDown(g: bv16)
    requires g & 0x8000 == 0
    ensures (g << 1) >> 1 == g
  {
  }

  lemma HalfOfXor(x: bv16, u: bv16)
    ensures (x ^ u) >> 1 == (x >> 1) ^ (u >> 1)
  {
  }

  lemma XorSwap(a: bv16, b: bv16, c: bv16)
    ensures (a ^ b) ^ c == (a ^ c) ^ b
  {
  }

  lemma ShiftEven(x: bv16)
    requires x & 1 == 0
    ensures Shift(x) == x >> 1
  {
  }

  lemma ShiftOdd(x: bv16)
    requires x & 1 == 1
    ensures Shift(x) == (x >> 1) ^ POLYNOMIAL
  {
  }

  lemma LowBit(x: bv16)
    ensures x & 1 == 0 || x & 1 == 1
  {
  }

  /** What was added one place up comes out added one place down. */
  lemma ShiftXor(x: bv16, g: bv16)
    requires g & 0x8000 == 0
    ensures Shift(Xor(x, g << 1)) == Xor(Shift(x), g)
  {
    UpIsEven(x, g);
    UpComesDown(g);
    HalfOfXor(x, g << 1);
    LowBit(x);
    if x & 1 == 1 {
      ShiftOdd(x);
      ShiftOdd(x ^ (g << 1));
      XorSwap(x >> 1, g, POLYNOMIAL);
    } else {
      ShiftEven(x);
      ShiftEven(x ^ (g << 1));
    }
  }

  /** A value with room above it, moved up k places, slides down in k turns. */
  lemma Carry1(h: bv16)
    requires h & 0x8000 == 0
    ensures R.Carries(Shift, Xor, h << 1, h, 1)
  {
    hide Shift, Xor;
    forall x: bv16
      ensures R.Iter(Shift, Xor(x, h << 1), 1) == Xor(R.Iter(Shift, x, 1), h)
    {
      ShiftXor(x, h);
      R.Once(Shift, Xor(x, h << 1));
      R.Once(Shift, x);
    }
  }

  lemma Carry2(h: bv16)
    requires h & 0xC000 == 0
    ensures R.Carries(Shift, Xor, h << 2, h, 2)
  {
    assert (h << 1) & 0x8000 == 0 && h & 0x8000 == 0 && (h << 1) << 1 == h << 2;
    Carry1(h << 1);
    Carry1(h);
    R.CarriesOn(Shift, Xor, (h << 1) << 1, h << 1, h, 1, 1);
  }

  lemma Carry4(h: bv16)
    requires h & 0xF000 == 0
    ensures R.Carries(Shift, Xor, h << 4, h, 4)
  {
    assert (h << 2) & 0xC000 == 0 && h & 0xC000 == 0 && (h << 2) << 2 == h << 4;
    Carry2(h << 2);
    Carry2(h);
    R.CarriesOn(Shift, Xor, (h << 2) << 2, h << 2, h, 2, 2);
  }

  lemma Carry8(h: bv16)
    requires h & 0xFF00 == 0
    ensures R.Carries(Shift, Xor, h << 8, h, BITS)
  {
    assert (h << 4) & 0xF000 == 0 && h & 0xF000 == 0 && (h << 4) << 4 == h << 8;
    Carry4(h << 4);
    Carry4(h);
    R.CarriesOn(Shift, Xor, (h << 4) << 4, h << 4, h, 4, 4);
  }

  // ----- Two bytes at a time

  function Up8(a: bv16): bv16 { a << 8 }

  /** The little-endian word the receiver reads from the end of a frame. */
  function Word(lo: bv8, hi: bv8): bv16 {
    (Wide(hi) << 8) | Wide(lo)
  }

  lemma WordParts(c: bv16, lo: bv8, hi: bv8)
    ensures Xor(Xor(c, Wide(lo)), Up8(Wide(hi))) == Xor(c, Word(lo, hi))
  {
  }

  lemma XorAssociates(c: bv16, a: bv16, b: bv16)
    ensures Xor(Xor(c, a), b) == Xor(c, Xor(a, b))
  {
  }

  lemma ByteFits(b: bv8)
    ensures Wide(b) & 0xFF00 == 0
  {
  }

  lemma ByteCarries(b: bv8)
    ensures R.Carries(Shift, Xor, Up8(Wide(b)), Wide(b), BITS)
  {
    ByteFits(b);
    hide Shift, Xor, Wide;
    Carry8(Wide(b));
  }

  /** Two bytes are absorbed as one 16-bit word. */
  lemma RunWord(c: bv16, lo: bv8, hi: bv8)
    ensures Run(c, [lo, hi]) == R.Iter(Shift, Xor(c, Word(lo, hi)), BITS + BITS)
  {
    hide Shift, Xor, Wide, Word, Up8;
    var l, h := Wide(lo), Wide(hi);
    WordParts(c, lo, hi);
    ByteCarries(hi);
    R.RunTwo(Shift, Xor, BITS, c, l, h, Up8(h));
    R.MappedTwo(Wide, lo, hi);
  }

  lemma RunConcat(c: bv16, a: seq<bv8>, b: seq<bv8>)
    ensures Run(c, a + b) == Run(Run(c, a), b)
  {
    R.RunOverConcat(Shift, Xor, BITS, Wide, c, a, b);
  }

  lemma WordInjective(c: bv16, lo: bv8, hi: bv8, lo': bv8, hi': bv8)
    requires Xor(c, Word(lo, hi)) == Xor(c, Word(lo', hi'))
    ensures lo == lo' && hi == hi'
  {
  }

  lemma TwoFix(c: bv16, s: seq<bv8>, t: seq<bv8>)
    requires |s| == |t| == 2 && Run(c, s) == Run(c, t)
    ensures s == t
  {
    hide Shift, Xor, Word, Run;
    var v, w := Word(s[0], s[1]), Word(t[0], t[1]);
    assert s == [s[0], s[1]] && t == [t[0], t[1]];
    RunWord(c, s[0], s[1]);
    RunWord(c, t[0], t[1]);
    Reversible();
    R.IterInjective(Shift, Xor(c, v), Xor(c, w), BITS + BITS);
    WordInjective(c, s[0], s[1], t[0], t[1]);
  }

  /** Up to two bytes that leave the same register are the same bytes. */
  lemma ShortFix(c: bv16, s: seq<bv8>, t: seq<bv8>)
    requires |s| == |t| <= 2 && Run(c, s) == Run(c, t)
    ensures s == t
  {
    hide Run;
    var pad := [0, 0][|s|..];
    RunConcat(c, s, pad);
    RunConcat(c, t, pad);
    TwoFix(c, s + pad, t + pad);
    assert s == (s + pad)[..|s|] && t == (t + pad)[..|s|];
  }

  lemma TellsTwoBytes()
    ensures R.Tells(Shift, Xor, BITS, Wide, 2)
  {
    forall c: bv16, s: seq<bv8>, t: seq<bv8> |
      |s| == |t| <= 2 && R.RunOver(Shift, Xor, BITS, Wide, c, s) == R.RunOver(Shift, Xor, BITS, Wide, c, t)
      ensures s == t
    {
      ShortFix(c, s, t);
    }
  }

  /** Equal-length messages that differ only within two consecutive bytes never share
      a CRC: with the same CRC they are the same message. */
  lemma {:induction false} TwoByteChangeShows(c: bv16, s: seq<bv8>, t: seq<bv8>, k: nat)
    requires R.AgreeBeside(s, t, k, 2) && Run(c, s) == Run(c, t)
    ensures s == t
  {
    Reversible();
    TellsTwoBytes();
    R.ChangeShows(Shift, Xor, BITS, Wide, 2, c, s, t, k);
  }

  // ----- Bit by bit

  function Lone(b: bool): bv16 { if b then 1 else 0 }

  /** 1 << i */
  function One(i: nat): bv16
    requires i < 8
  {
    if i == 0 then 0x01 else if i == 1 then 0x02 else if i == 2 then 0x04 else if i == 3 then 0x08
    else if i == 4 then 0x10 else if i == 5 then 0x20 else if i == 6 then 0x40 else 0x80
  }

  /** Bit i of a byte, where it stands. */
  function Piece(x: bv8, i: nat): bv16
    requires i < 8
  {
    Wide(x & Mask8(i))
  }

  lemma PieceValue(x: bv8, i: nat)
    requires i < 8
    ensures Piece(x, i) == if Bit8(x, i) then One(i) else 0
  {
  }

  lemma OneUp(i: nat)
    requires 0 < i < 8
    ensures One(i) == One(i - 1) << 1 && One(i - 1) & 0x8000 == 0
  {
  }

  lemma XorNothing(x: bv16)
    ensures Xor(x, 0) == x
  {
  }

  lemma CarryNothing(m: nat)
    ensures R.Carries(Shift, Xor, 0, 0, m)
  {
    hide Shift, Xor;
    forall x: bv16
      ensures R.Iter(Shift, Xor(x, 0), m) == Xor(R.Iter(Shift, x, m), 0)
    {
      XorNothing(x);
      XorNothing(R.Iter(Shift, x, m));
    }
  }

  lemma {:induction false} CarryOne(i: nat)
    requires i < 8
    ensures R.Carries(Shift, Xor, One(i), One(0), i)
  {
    if i > 0 {
      OneUp(i);
      Carry1(One(i - 1));
      CarryOne(i - 1);
      hide One, Shift, Xor;
      R.CarriesOn(Shift, Xor, One(i), One(i - 1), One(0), 1, i - 1);
    }
  }

  lemma PieceCarries(x: bv8, i: nat)
    requires i < 8
    ensures R.Carries(Shift, Xor, Piece(x, i), Lone(Bit8(x, i)), i)
  {
    PieceValue(x, i);
    assert One(0) == 1;
    hide Shift, Xor, Piece, Bit8, One;
    if Bit8(x, i) {
      CarryOne(i);
    } else {
      CarryNothing(i);
    }
  }

  lemma PiecesMake(x: bv8)
    ensures Xor(Xor(Xor(Xor(Xor(Xor(Xor(Piece(x, 0), Piece(x, 1)), Piece(x, 2)), Piece(x, 3)), Piece(x, 4)), Piece(x, 5)), Piece(x, 6)), Piece(x, 7)) == Wide(x)
  {
  }

  lemma XorEight(c: bv16, a0: bv16, a1: bv16, a2: bv16, a3: bv16, a4: bv16, a5: bv16, a6: bv16, a7: bv16)
    ensures Xor(Xor(Xor(Xor(Xor(Xor(Xor(Xor(c, a0), a1), a2), a3), a4), a5), a6), a7) ==
      Xor(c, Xor(Xor(Xor(Xor(Xor(Xor(Xor(a0, a1), a2), a3), a4), a5), a6), a7))
  {
    hide Xor;
    var s1 := Xor(a0, a1);
    var s2 := Xor(s1, a2);
    var s3 := Xor(s2, a3);
    var s4 := Xor(s3, a4);
    var s5 := Xor(s4, a5);
    var s6 := Xor(s5, a6);
    XorAssociates(c, a0, a1);
    XorAssociates(c, s1, a2);
    XorAssociates(c, s2, a3);
    XorAssociates(c, s3, a4);
    XorAssociates(c, s4, a5);
    XorAssociates(c, s5, a6);
    XorAssociates(c, s6, a7);
  }

  /** All of a byte added at once is its bits added one by one. */
  lemma PiecesAdded(c: bv16, x: bv8)
    ensures Xor(Xor(Xor(Xor(Xor(Xor(Xor(Xor(c, Piece(x, 0)), Piece(x, 1)), Piece(x, 2)), Piece(x, 3)), Piece(x, 4)), Piece(x, 5)), Piece(x, 6)), Piece(x, 7)) == Xor(c, Wide(x))
  {
    hide Xor, Wide, Piece;
    XorEight(c, Piece(x, 0), Piece(x, 1), Piece(x, 2), Piece(x, 3), Piece(x, 4), Piece(x, 5), Piece(x, 6), Piece(x, 7));
    PiecesMake(x);
  }

  /** Feeding a byte is feeding its bits, the lowest first. */
  lemma ByteIsSerial(c: bv16, x: bv8)
    ensures R.Absorb(Shift, Xor, BITS, c, Wide(x)) == R.RunOver(Shift, Xor, 1, Lone, c, Bits8(x))
  {
    hide Shift, Xor, Wide, Piece, Lone, Bit8, R.Absorb, R.RunOver, R.Carries;
    PiecesAdded(c, x);
    FirstPiece(x);
    PieceCarries(x, 1);
    PieceCarries(x, 2);
    PieceCarries(x, 3);
    PieceCarries(x, 4);
    PieceCarries(x, 5);
    PieceCarries(x, 6);
    PieceCarries(x, 7);
    R.SymbolIsSerial(Shift, Xor, Lone, c, Wide(x),
      Bit8(x, 0), Bit8(x, 1), Bit8(x, 2), Bit8(x, 3), Bit8(x, 4), Bit8(x, 5), Bit8(x, 6), Bit8(x, 7),
      Piece(x, 0), Piece(x, 1), Piece(x, 2), Piece(x, 3), Piece(x, 4), Piece(x, 5), Piece(x, 6), Piece(x, 7));
  }

  lemma FirstPiece(x: bv8)
    ensures Piece(x, 0) == Lone(Bit8(x, 0))
  {
    PieceValue(x, 0);
  }

  lemma BytesAreSerial()
    ensures R.Serial(Shift, Xor, BITS, Wide, Lone, Bits8)
  {
    forall c, x
      ensures R.Absorb(Shift, Xor, BITS, c, Wide(x)) == R.RunOver(Shift, Xor, 1, Lone, c, Bits8(x))
    {
      ByteIsSerial(c, x);
    }
  }

  /** Equal-length messages that differ only within 16 consecutive bits, across byte
      borders or not, never share a checksum: with the same checksum they are the same
      message. */
  lemma {:induction false} SixteenBitChangeShows(c: bv16, s: seq<bv8>, t: seq<bv8>, k: nat)
    requires R.AgreeBeside(R.BitsOf(Bits8, s), R.BitsOf(Bits8, t), k, 16) && Run(c, s) == Run(c, t)
    ensures s == t
  {
    hide Shift, Xor, Wide, Lone, Bits8;
    Reversible();
    TellsTwoBytes();
    BytesAreBits();
    BytesAreSerial();
    R.BurstShows(Shift, Xor, BITS, Wide, Lone, Bits8, Byte8, 8, 2, c, s, t, k);
  }

  // ----- A known answer

  /** Eight turns on one byte. */
  function Fed(c: bv16, b: bv8): bv16 {
    Shift(Shift(Shift(Shift(Shift(Shift(Shift(Shift(c ^ Wide(b)))))))))
  }

  lemma FeedsByte(c: bv16, data: seq<bv8>, i: nat)
    requires i < |data|
    ensures Run(c, data[i..]) == Run(Fed(c, data[i]), data[i + 1..])
  {
    hide Shift;
    var b := data[i];
    R.Eight(Shift, Xor(c, Wide(b)));
    assert R.Mapped(Wide, [b]) == [Wide(b)];
    assert R.RunOver(Shift, Xor, BITS, Wide, c, [b]) == R.Run(Shift, Xor, BITS, R.Absorb(Shift, Xor, BITS, c, Wide(b)), []);
    assert data[i..] == [b] + data[i + 1..];
    RunConcat(c, [b], data[i + 1..]);
  }

  lemma FirstThreeFed()
    ensures Fed(0xFFFF, 0x31) == 0x947E && Fed(0x947E, 0x32) == 0xF595 && Fed(0xF595, 0x33) == 0x7A75
  {
  }

  lemma MiddleThreeFed()
    ensures Fed(0x7A75, 0x34) == 0x30BA && Fed(0x30BA, 0x35) == 0xA471 && Fed(0xA471, 0x36) == 0x32E4
  {
  }

  lemma LastThreeFed()
    ensures Fed(0x32E4, 0x37) == 0x9D73 && Fed(0x9D73, 0x38) == 0x37DD && Fed(0x37DD, 0x39) == 0x4B37
  {
  }

  /** The CRC of the nine characters 123456789, by which this variant is told from others. */
  lemma CheckValue()
    ensures Run(SEED, [0x31, 0x32, 0x33, 0x34, 0x35, 0x36, 0x37, 0x38, 0x39]) == 0x4B37
  {
    FirstThreeFed();
    MiddleThreeFed();
    LastThreeFed();
    hide Run, Fed;
    var data: seq<bv8> := [0x31, 0x32, 0x33, 0x34, 0x35, 0x36, 0x37, 0x38, 0x39];
    assert data[0..] == data && data[9..] == [];
    FeedsByte(0xFFFF, data, 0);
    FeedsByte(0x947E, data, 1);
    FeedsByte(0xF595, data, 2);
    FeedsByte(0x7A75, data, 3);
    FeedsByte(0x30BA, data, 4);
    FeedsByte(0xA471, data, 5);
    FeedsByte(0x32E4, data, 6);
    FeedsByte(0x9D73, data, 7);
    FeedsByte(0x37DD, data, 8);
    RunNothing(0x4B37);
  }

  lemma RunNothing(c: bv16)
    ensures Run(c, []) == c
  {
  }

  // ----- Frames

  function Low(c: bv16): bv8 { (c & 0xFF) as bv8 }

  function High(c: bv16): bv8 { ((c >> 8) & 0xFF) as bv8 }

  lemma WordOfParts(c: bv16)
    ensures Word(Low(c), High(c)) == c
  {
  }

  /** A body with its CRC behind it, low byte first. */
  function Sealed(body: seq<bv8>): seq<bv8> {
    body + [Low(Run(SEED, body)), High(Run(SEED, body))]
  }

  /** The receiver's test: the last two bytes are the CRC of what stands before. */
  predicate Accepts(frame: seq<bv8>) {
    |frame| >= 2 &&
    var n := |frame|;
    Word(frame[n - 2], frame[n - 1]) == Run(SEED, frame[..n - 2])
  }

  lemma {:induction false} ZeroStays(n: nat)
    ensures R.Iter(Shift, 0, n) == 0
    decreases n
  {
    if n > 0 {
      assert Shift(0) == 0;
      ZeroStays(n - 1);
    }
  }

  lemma XorSelf(a: bv16)
    ensures Xor(a, a) == 0
  {
  }

  lemma XorZeroFixes(a: bv16, b: bv16)
    requires Xor(a, b) == 0
    ensures a == b
  {
  }

  lemma ResidueZero(c: bv16, w: bv16)
    ensures R.Iter(Shift, Xor(c, w), BITS + BITS) == 0 <==> c == w
  {
    hide Shift, Xor;
    ZeroStays(BITS + BITS);
    XorSelf(c);
    if R.Iter(Shift, Xor(c, w), BITS + BITS) == 0 {
      Reversible();
      R.IterInjective(Shift, Xor(c, w), 0, BITS + BITS);
      XorZeroFixes(c, w);
    }
  }

  /** The receiver's test is that the CRC over the whole frame is zero. */
  lemma AcceptsIffResidueZero(frame: seq<bv8>)
    requires |frame| >= 2
    ensures Accepts(frame) <==> Run(SEED, frame) == 0
  {
    var n := |frame| - 2;
    var body, lo, hi := frame[..n], frame[n], frame[n + 1];
    var c := Run(SEED, body);
    assert frame == body + [lo, hi];
    RunConcat(SEED, body, [lo, hi]);
    RunWord(c, lo, hi);
    ResidueZero(c, Word(lo, hi));
  }

  /** Every sealed body passes the receiver's test, and nothing else with that body does. */
  lemma SealedIsAccepted(body: seq<bv8>, tail: seq<bv8>)
    requires |tail| == 2
    ensures Accepts(body + tail) <==> body + tail == Sealed(body)
    ensures Run(SEED, Sealed(body)) == 0
  {
    var c := Run(SEED, body);
    WordOfParts(c);
    var frame := body + tail;
    assert frame[..|body|] == body && frame[|body|..] == tail == [tail[0], tail[1]];
    if Word(tail[0], tail[1]) == Word(Low(c), High(c)) {
      WordInjective(0, tail[0], tail[1], Low(c), High(c));
    }
    var sealed := Sealed(body);
    assert sealed[..|body|] == body;
    AcceptsIffResidueZero(sealed);
  }

  /** An accepted frame damaged anywhere within two consecutive bytes is refused. */
  lemma DamagedFrameRefused(frame: seq<bv8>, damaged: seq<bv8>, k: nat)
    requires Accepts(frame) && R.AgreeBeside(frame, damaged, k, 2) && damaged != frame
    ensures !Accepts(damaged)
  {
    AcceptsIffResidueZero(frame);
    AcceptsIffResidueZero(damaged);
    if Accepts(damaged) {
      TwoByteChangeShows(SEED, frame, damaged, k);
    }
  }

  /** Nor does one get through that is damaged within sixteen consecutive bits. */
  lemma BurstRefused(frame: seq<bv8>, damaged: seq<bv8>, k: nat)
    requires Accepts(frame) && R.AgreeBeside(R.BitsOf(Bits8, frame), R.BitsOf(Bits8, damaged), k, 16) && damaged != frame
    ensures !Accepts(damaged)
  {
    hide Run;
    AcceptsIffResidueZero(frame);
    if Accepts(damaged) {
      AcceptsIffResidueZero(damaged);
      SixteenBitChangeShows(SEED, frame, damaged, k);
    }
  }

  const REGISTER_CODE: bv8 := 0xFA

  /** Frames for registration, for everyone, and for this module. */
  predicate Addressed(frame: seq<bv8>, own: bv8)
    requires frame != []
  {
    frame[0] == REGISTER_CODE || frame[0] == 0x00 || frame[0] == own
  }

  class Receiver {
    var data: seq<bv8>
    var messageFlag: bool

    /** Uart1_input, called with the bytes the device holds. */
    method Input(received: seq<bv8>, own: bv8) returns (ok: bool)
      modifies this
      ensures data == received
      ensures ok <==> |received| >= 2 && Run(SEED, received) == 0
      ensures messageFlag <==>
        old(messageFlag) || (ok && (received[0] == 0xFA || received[0] == 0x00 || received[0] == own))
    {
      data := received;
      var size := |received|;
      if 2 > size {
        return false;
      }
      AcceptsIffResidueZero(received);
      var crc16 := Word(data[size - 2], data[size - 1]);
      var computed := ModbusCrc(data[..size - 2]);
      if crc16 == computed {
        if Addressed(data, own) {
          messageFlag := true;
        }
        return true;
      }
      return false;
    }
  }

  /** The screen at the head of Uart1Analysis: do the received bytes reach its handlers?
      Their number arrives in an 8-bit parameter. */
  method Screen(data: seq<bv8>) returns (handled: bool)
    ensures var len := |data| % 256; handled <==> len > 2 && Run(SEED, data[..len]) == 0
    ensures |data| < 256 ==> (handled <==> |data| > 2 && Run(SEED, data) == 0)
  {
    hide Run;
    var len := |data| % 256;
    assert |data| < 256 ==> data[..len] == data;
    if len <= 2 {
      return false;
    }
    AcceptsIffResidueZero(data[..len]);
    assert data[..len][..len - 2] == data[..len - 2];
    var computed := ModbusCrc(data[..len - 2]);
    return Word(data[len - 2], data[len - 1]) == computed;
  }

  /** An accepted frame of 3 to 255 bytes reaches the handlers.  Of a longer one only the
      first size mod 256 bytes are looked at, so that it is lost unless these happen to be
      a frame themselves. */
  ghost predicate Reaches(frame: seq<bv8>) {
    var len := |frame| % 256; len > 2 && Run(SEED, frame[..len]) == 0
  }

  lemma AcceptedReaches(frame: seq<bv8>)
    requires Accepts(frame) && |frame| < 256
    ensures Reaches(frame) <==> |frame| > 2
  {
    AcceptsIffResidueZero(frame);
    assert frame[..|frame| % 256] == frame;
  }

  /** Every sealed body of 254 bytes, for one, is accepted and lost. */
  lemma LongFrameIsLost(body: seq<bv8>)
    requires |body| == 254
    ensures Accepts(Sealed(body)) && !Reaches(Sealed(body))
  {
    SealedIsAccepted(body, [Low(Run(SEED, body)), High(Run(SEED, body))]);
  }

  function Byte(id: bv32, shift: nat): bv8
    requires shift <= 24
  {
    ((id >> shift) & 0xFF) as bv8
  }

  /** Puts the CRC of the first n bytes behind them, low byte first. */
  method Seal(data: array<bv8>, n: nat)
    requires n + 2 <= data.Length
    modifies data
    ensures data[..n + 2] == Sealed(old(data[..n])) && Accepts(data[..n + 2])
    ensures data[n + 2..] == old(data[n + 2..])
  {
    ghost var body := data[..n];
    var crc := ModbusCrc(data[..n]);
    data[n] := Low(crc);
    data[n + 1] := High(crc);
    assert data[..n] == body;
    assert data[..n + 2] == body + [Low(crc), High(crc)];
    SealedIsAccepted(body, [Low(crc), High(crc)]);
  }

  function RegisterBody(id: bv32, addr: bv8, kind: bv8): seq<bv8> {
    [REGISTER_CODE, 0, 0, 0, 0, 0, 6, addr, kind, Byte(id, 24), Byte(id, 16), Byte(id, 8), Byte(id, 0)]
  }

  /** The number whose bytes these are, the highest first. */
  function Number(b3: bv8, b2: bv8, b1: bv8, b0: bv8): bv32 {
    ((b3 as bv32) << 24) | ((b2 as bv32) << 16) | ((b1 as bv32) << 8) | (b0 as bv32)
  }

  lemma BytePlaces(id: bv32)
    ensures (Byte(id, 24) as bv32) << 24 == id & 0xFF00_0000 && (Byte(id, 16) as bv32) << 16 == id & 0x00FF_0000
    ensures (Byte(id, 8) as bv32) << 8 == id & 0x0000_FF00 && Byte(id, 0) as bv32 == id & 0x0000_00FF
  {
  }

  lemma NumberOfBytes(id: bv32)
    ensures Number(Byte(id, 24), Byte(id, 16), Byte(id, 8), Byte(id, 0)) == id
  {
    BytePlaces(id);
    hide Byte;
    assert (id & 0xFF00_0000) | (id & 0x00FF_0000) | (id & 0x0000_FF00) | (id & 0x0000_00FF) == id;
  }

  /** The frame can be read back: code 0xFA, length 6, address, kind and the whole id. */
  lemma RegisterReadBack(id: bv32, addr: bv8, kind: bv8)
    ensures var f := Sealed(RegisterBody(id, addr, kind));
      |f| == 15 && f[0] == 0xFA && f[1..6] == [0, 0, 0, 0, 0] && f[6] == 6 && f[7] == addr && f[8] == kind &&
      Number(f[9], f[10], f[11], f[12]) == id && Word(f[13], f[14]) == Run(SEED, f[..13])
  {
    hide Run, Byte, Number, Word, Low, High;
    NumberOfBytes(id);
    var body := RegisterBody(id, addr, kind);
    WordOfParts(Run(SEED, body));
    var f := Sealed(body);
    assert f[..13] == body && f[1..6] == body[1..6];
  }

  /** GenerateRegisterData; the unique id and the global settings are arguments. */
  method RegisterFrame(data: array?<bv8>, id: bv32, addr: bv8, kind: bv8) returns (len: nat)
    requires data != null ==> data.Length >= 15
    modifies data
    ensures data == null ==> len == 0
    ensures data != null ==> len == 15 && data[..len] == Sealed(RegisterBody(id, addr, kind))
    ensures data != null ==> Accepts(data[..len]) && data[len..] == old(data[len..])
  {
    hide Sealed, Accepts, Byte;
    if data == null {
      return 0;
    }
    data[0] := REGISTER_CODE;
    data[1], data[2], data[3], data[4], data[5] := 0, 0, 0, 0, 0;
    data[6] := 6;
    data[7] := addr;
    data[8] := kind;
    data[9], data[10], data[11], data[12] := Byte(id, 24), Byte(id, 16), Byte(id, 8), Byte(id, 0);
    assert data[..13] == RegisterBody(id, addr, kind);
    assert data[15..] == old(data[15..]);
    Seal(data, 13);
    return 15;
  }

  /** The reply to a write of several registers. */
  method WriteReply(reply: array<bv8>, addr: bv8, cmd: bv8, reg: bv16, size: bv8)
    requires reply.Length == 8
    modifies reply
    ensures reply[..] == Sealed([addr, cmd, High(reg), Low(reg), 0, size])
    ensures Accepts(reply[..])
  {
    hide Sealed, Accepts, High, Low;
    reply[0] := addr;
    reply[1] := cmd;
    reply[2] := High(reg);
    reply[3] := Low(reg);
    reply[4] := 0;
    reply[5] := size;
    assert reply[..6] == [addr, cmd, High(reg), Low(reg), 0, size];
    Seal(reply, 6);
    assert reply[..] == reply[..8];
  }
}
