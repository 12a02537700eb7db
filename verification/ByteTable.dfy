/** Bytes as indices into tables of 256 entries, written as the source writes them: in rows
    of sixteen; and bytes as eight bits. */
module ByteTable {
  import R = Register

  function Nibble(n: bv8): (r: nat)
    requires n <= 15
    ensures r < 16
  {
    if n < 8 then
      if n < 4 then
        if n == 0 then 0 else if n == 1 then 1 else if n == 2 then 2 else 3
      else
        if n == 4 then 4 else if n == 5 then 5 else if n == 6 then 6 else 7
    else
      if n < 12 then
        if n == 8 then 8 else if n == 9 then 9 else if n == 10 then 10 else 11
      else
        if n == 12 then 12 else if n == 13 then 13 else if n == 14 then 14 else 15
  }

  /** The sixteen entries from index k on are g(k), g(k + 1), ... */
  ghost predicate Lists<T>(g: bv8 -> T, row: seq<T>, k: bv8) {
    |row| == 16 &&
    row[0] == g(k) && row[1] == g(k + 1) && row[2] == g(k + 2) && row[3] == g(k + 3) &&
    row[4] == g(k + 4) && row[5] == g(k + 5) && row[6] == g(k + 6) && row[7] == g(k + 7) &&
    row[8] == g(k + 8) && row[9] == g(k + 9) && row[10] == g(k + 10) && row[11] == g(k + 11) &&
    row[12] == g(k + 12) && row[13] == g(k + 13) && row[14] == g(k + 14) && row[15] == g(k + 15)
  }

  /** The same as one equation. */
  ghost predicate Shows<T>(g: bv8 -> T, row: seq<T>, k: bv8) {
    row == [g(k), g(k + 1), g(k + 2), g(k + 3), g(k + 4), g(k + 5), g(k + 6), g(k + 7),
            g(k + 8), g(k + 9), g(k + 10), g(k + 11), g(k + 12), g(k + 13), g(k + 14), g(k + 15)]
  }

  lemma ShownIsListed<T>(g: bv8 -> T, row: seq<T>, k: bv8)
    requires Shows(g, row, k)
    ensures Lists(g, row, k)
  {
  }

  lemma InRow<T>(g: bv8 -> T, row: seq<T>, k: bv8, n: bv8)
    requires Lists(g, row, k) && n <= 15
    ensures row[Nibble(n)] == g(k + n)
  {
  }

  /** What holds of a row holds of the entry of byte b in it. */
  lemma EntryOf<T>(g: bv8 -> T, row: seq<T>, b: bv8)
    requires Lists(g, row, (b >> 4) << 4)
    ensures row[Nibble(b & 0xF)] == g(b)
  {
    InRow(g, row, (b >> 4) << 4, b & 0xF);
    assert ((b >> 4) << 4) + (b & 0xF) == b;
  }

  lemma Retold<T>(g: bv8 -> T, g': bv8 -> T, row: seq<T>, k: bv8)
    requires Shows(g, row, k) && forall x :: g(x) == g'(x)
    ensures Lists(g', row, k)
  {
    ShownIsListed(g, row, k);
  }

  // ----- The bits of a byte, the lowest first

  function Mask8(i: nat): bv8
    requires i < 8
  {
    if i == 0 then 0x01 else if i == 1 then 0x02 else if i == 2 then 0x04 else if i == 3 then 0x08
    else if i == 4 then 0x10 else if i == 5 then 0x20 else if i == 6 then 0x40 else 0x80
  }

  predicate Bit8(b: bv8, i: nat)
    requires i < 8
  {
    b & Mask8(i) != 0
  }

  function Bits8(x: bv8): (r: seq<bool>)
    ensures |r| == 8
  {
    [Bit8(x, 0), Bit8(x, 1), Bit8(x, 2), Bit8(x, 3), Bit8(x, 4), Bit8(x, 5), Bit8(x, 6), Bit8(x, 7)]
  }

  function Place8(b: bool, i: nat): bv8
    requires i < 8
  {
    if b then Mask8(i) else 0
  }

  function Join8(b0: bool, b1: bool, b2: bool, b3: bool, b4: bool, b5: bool, b6: bool, b7: bool): bv8 {
    Place8(b0, 0) | Place8(b1, 1) | Place8(b2, 2) | Place8(b3, 3) | Place8(b4, 4) | Place8(b5, 5) | Place8(b6, 6) | Place8(b7, 7)
  }

  function Byte8(t: seq<bool>): bv8 {
    if |t| == 8 then Join8(t[0], t[1], t[2], t[3], t[4], t[5], t[6], t[7]) else 0
  }

  lemma JoinedBits(b0: bool, b1: bool, b2: bool, b3: bool, b4: bool, b5: bool, b6: bool, b7: bool)
    ensures var x := Join8(b0, b1, b2, b3, b4, b5, b6, b7);
      Bit8(x, 0) == b0 && Bit8(x, 1) == b1 && Bit8(x, 2) == b2 && Bit8(x, 3) == b3 &&
      Bit8(x, 4) == b4 && Bit8(x, 5) == b5 && Bit8(x, 6) == b6 && Bit8(x, 7) == b7
  {
  }

  lemma BitsJoined(x: bv8)
    ensures Join8(Bit8(x, 0), Bit8(x, 1), Bit8(x, 2), Bit8(x, 3), Bit8(x, 4), Bit8(x, 5), Bit8(x, 6), Bit8(x, 7)) == x
  {
  }

  lemma ByteOfBits(x: bv8)
    ensures Byte8(Bits8(x)) == x
  {
    hide Bit8, Join8;
    BitsJoined(x);
  }

  lemma BitsOfByte(t: seq<bool>)
    requires |t| == 8
    ensures Bits8(Byte8(t)) == t
  {
    hide Bit8, Join8, Mask8, Place8;
    JoinedBits(t[0], t[1], t[2], t[3], t[4], t[5], t[6], t[7]);
  }

  /** A byte is its eight bits. */
  lemma BytesAreBits()
    ensures R.Codes(Bits8, Byte8, 8)
  {
    hide Bits8, Byte8;
    forall x
      ensures Byte8(Bits8(x)) == x
    {
      ByteOfBits(x);
    }
    forall t: seq<bool> | |t| == 8
      ensures Bits8(Byte8(t)) == t
    {
      BitsOfByte(t);
    }
  }
}
