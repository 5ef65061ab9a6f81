/** Coin amounts and addresses, as calls on a builder and as reads of a slice. */
module Codecs {
  import opened BitStrings
  import opened Cells
  import opened Wrappers

  // ----- coins

  /** BigInt256.bit_size: width with a sign bit, and 0 for zero. */
  function BitSize(v: nat): nat {
    if v == 0 then 0 else BitLength(v) + 1
  }

  function ByteCount(v: nat): nat {
    (BitSize(v) + 7) / 8
  }

  /** export_bytes: the count low-order bytes, most significant first. */
  function BytesOf(v: nat, count: nat): (s: seq<Byte>)
    ensures |s| == count
    decreases count
  {
    if count == 0 then [] else BytesOf(v / 256, count - 1) + [v % 256]
  }

  function CoinsCalls(v: nat): seq<Call> {
    if v == 0 then [LongCall(0, 4)]
    else [LongCall(ByteCount(v), 4), BytesCall(BytesOf(v, ByteCount(v)))]
  }

  function CoinsBits(v: nat): Bits {
    if v == 0 then ToBits(0, 4)
    else ToBits(ByteCount(v), 4) + BytesToBits(BytesOf(v, ByteCount(v)))
  }

  /** The signed big-integer read; a non-positive number reads as 0. Nothing is
      returned when the slice is too short: the native code then dereferences a
      null number. */
  function FetchBigInt(s: Cell, width: nat): Option<(nat, Cell)> {
    if |s.bits| < width then None
    else
      var u := FromBits(s.bits[..width]);
      var negative := width > 0 && s.bits[0];
      Some((if negative then 0 else u, Cell(s.bits[width..], s.refs)))
  }

  function FetchNumber(s: Cell, width: nat): Option<(nat, Cell)> {
    if width <= 64 then Some(FetchLong(s, width)) else FetchBigInt(s, width)
  }

  function FetchCoins(s: Cell): Option<(nat, Cell)> {
    var (count, rest) := FetchLong(s, CeilLog2(16));
    FetchNumber(rest, count * 8)
  }

  lemma CoinsContent(v: nat)
    ensures Content(CoinsCalls(v)) == Cell(CoinsBits(v), [])
  {
    if v == 0 {
      ContentOfOne(LongCall(0, 4));
    } else {
      var count, data := LongCall(ByteCount(v), 4), BytesCall(BytesOf(v, ByteCount(v)));
      assert CoinsCalls(v) == [count] + [data];
      ContentCons(count, [data]);
      ContentOfOne(data);
    }
  }

  lemma {:induction false} BytesOfPacks(v: nat, count: nat)
    ensures BytesToBits(BytesOf(v, count)) == ToBits(v, 8 * count)
    decreases count
  {
    if count == 0 {
    } else {
      BytesOfPacks(v / 256, count - 1);
      var front := BytesOf(v / 256, count - 1);
      PackConcat(front, [v % 256], 8);
      assert Pow2(8) == 256;
      ToBitsSplit(v, 8 * (count - 1), 8);
      LastByte(v);
    }
  }

  lemma LastByte(v: nat)
    ensures Pack([v % 256], 8) == ToBits(v, 8)
  {
    var w := v % 256;
    assert Pow2(8) == 256;
    ToBitsMod(v, w, 8);
    assert Pack([w], 8) == ToBits(w, 8) + Pack([w][1..], 8);
  }

  /** Twice the value still fits: the byte form leaves the sign bit clear. */
  lemma BytesLeaveSignBit(v: nat)
    requires v > 0
    ensures 2 * v < Pow2(8 * ByteCount(v))
    ensures BytesToBits(BytesOf(v, ByteCount(v))) == ToBits(v, 8 * ByteCount(v))
    ensures !ToBits(v, 8 * ByteCount(v))[0]
  {
    var n := 8 * ByteCount(v);
    BytesOfPacks(v, ByteCount(v));
    BitLengthBounds(v);
    Pow2Monotone(BitSize(v), n);
    TopBitClear(v, n);
  }

  lemma TopBitClear(v: nat, n: nat)
    requires n > 0 && 2 * v < Pow2(n)
    ensures !ToBits(v, n)[0]
  {
    ToBitsSplit(v, 1, n - 1);
    DivModUnique(v, Pow2(n - 1), 0, v);
    assert ToBits(0, 1) == [false];
  }

  lemma ByteCountRange(v: nat)
    requires 0 < v < Pow2(128)
    ensures 1 <= ByteCount(v) <= 17
    ensures ByteCount(v) <= 15 <==> v < Pow2(119)
  {
    BitLengthBounds(v);
    if BitLength(v) > 128 {
      Pow2Monotone(128, BitLength(v) - 1);
      assert false;
    }
    if v < Pow2(119) {
      if BitLength(v) > 119 {
        Pow2Monotone(119, BitLength(v) - 1);
        assert false;
      }
    } else if BitLength(v) <= 119 {
      Pow2Monotone(BitLength(v), 119);
      assert false;
    }
  }

  lemma SixteenIsFourBits()
    ensures CeilLog2(16) == 4 && Pow2(4) == 16
  {
  }

  /** The unsigned and the signed read of a number whose sign bit is clear. */
  lemma NumberRead(v: nat, width: nat, tail: Bits, refs: seq<Cell>)
    requires width > 0 && 2 * v < Pow2(width)
    ensures FetchNumber(Cell(ToBits(v, width) + tail, refs), width) == Some((v, Cell(tail, refs)))
  {
    var code := ToBits(v, width);
    assert (code + tail)[..width] == code && (code + tail)[width..] == tail;
    TopBitClear(v, width);
    assert !(code + tail)[0];
    SmallRoundTrip(v, width);
  }

  lemma SizedRead(v: nat, count: nat, tail: Bits, refs: seq<Cell>)
    requires 1 <= count <= 15 && 2 * v < Pow2(count * 8)
    ensures FetchCoins(Cell(ToBits(count, 4) + (ToBits(v, count * 8) + tail), refs)) == Some((v, Cell(tail, refs)))
  {
    hide FetchNumber, FetchLong, FromBits, ToBits, Pow2, CeilLog2;
    var rest := ToBits(v, count * 8) + tail;
    CountRead(count, rest, refs);
    NumberRead(v, count * 8, tail, refs);
  }

  lemma StoredBytesRead(v: nat, tail: Bits, refs: seq<Cell>)
    requires 0 < v && 1 <= ByteCount(v) <= 15
    ensures FetchCoins(Cell(CoinsBits(v) + tail, refs)) == Some((v, Cell(tail, refs)))
  {
    hide FetchCoins, ToBits, BytesOf, BytesToBits, ByteCount, Pow2;
    var count := ByteCount(v);
    BytesLeaveSignBit(v);
    SizedRead(v, count, tail, refs);
    assert CoinsBits(v) + tail == ToBits(count, 4) + (ToBits(v, count * 8) + tail);
  }

  lemma CountRead(count: nat, tail: Bits, refs: seq<Cell>)
    ensures FetchLong(Cell(ToBits(count, 4) + tail, refs), CeilLog2(16)) == (count % 16, Cell(tail, refs))
  {
    SixteenIsFourBits();
    FetchLongOfCode(count, 4, tail, refs);
  }

  lemma OverlongBytesMisread(v: nat, tail: Bits, refs: seq<Cell>)
    requires v >= 256 && 16 <= ByteCount(v) <= 17
    ensures FetchCoins(Cell(CoinsBits(v) + tail, refs)).Some?
    ensures FetchCoins(Cell(CoinsBits(v) + tail, refs)).value.0 != v
  {
    hide FetchLong, FromBits, ToBits, BytesToBits, BytesOf, ByteCount, CeilLog2, FetchBigInt;
    SixteenIsFourBits();
    var count := ByteCount(v);
    var body := BytesToBits(BytesOf(v, count));
    assert CoinsBits(v) + tail == ToBits(count, 4) + (body + tail);
    FetchLongOfCode(count, 4, body + tail, refs);
    assert FetchLong(Cell(CoinsBits(v) + tail, refs), CeilLog2(16)) == (count - 16, Cell(body + tail, refs));
    ShortReadIsSmall(Cell(body + tail, refs), (count - 16) * 8);
  }

  /** Reading the bits of a stored amount, and nothing after them, gives the
      amount back exactly when it is below 2^119: from there on the byte count
      no longer fits its four-bit field. Zero, the unsigned path (at most eight
      bytes) and the signed path are all covered. */
  lemma CoinsRoundTrip(v: nat, tail: Bits, refs: seq<Cell>)
    requires v < Pow2(128)
    ensures FetchCoins(Cell(CoinsBits(v) + tail, refs)) == Some((v, Cell(tail, refs))) <==> v < Pow2(119)
  {
    if v == 0 {
      SixteenIsFourBits();
      FetchLongOfCode(0, 4, tail, refs);
      assert FetchLong(Cell(tail, refs), 0) == (0, Cell(tail, refs));
    } else {
      ByteCountRange(v);
      if ByteCount(v) <= 15 {
        StoredBytesRead(v, tail, refs);
      } else {
        assert v >= 256;
        OverlongBytesMisread(v, tail, refs);
      }
    }
  }

  lemma ShortReadIsSmall(s: Cell, width: nat)
    requires width <= 8
    ensures FetchLong(s, width).0 < 256
  {
    if |s.bits| >= width {
      FromBitsBound(s.bits[..width]);
      Pow2Monotone(width, 8);
      assert Pow2(8) == 256;
    }
  }

  lemma CoinsSize(v: nat)
    requires v < Pow2(119)
    ensures |CoinsBits(v)| <= 124
  {
    if v > 0 {
      Pow2Monotone(119, 128);
      ByteCountRange(v);
    }
  }

  /** The byte count written is the least that leaves the sign bit clear. */
  lemma ByteCountLeast(v: nat, count: nat)
    requires v > 0
    ensures ByteCount(v) <= count <==> 2 * v < Pow2(8 * count)
  {
    BitLengthBounds(v);
    if ByteCount(v) <= count {
      BytesLeaveSignBit(v);
      Pow2Monotone(8 * ByteCount(v), 8 * count);
    } else {
      Pow2Monotone(8 * count, BitLength(v));
      assert Pow2(BitLength(v)) == 2 * Pow2(BitLength(v) - 1);
    }
  }

  /** What LoadCoins makes of a byte count and the bits behind it, also when they
      were not written by StoreCoins. */
  lemma CountedRead(count: nat, bits: Bits, refs: seq<Cell>)
    requires count < 16
    ensures var read := FetchCoins(Cell(ToBits(count, 4) + bits, refs));
            && (count <= 8 && |bits| < 8 * count ==> read == Some((0, Cell(bits, refs))))
            && (count > 8 && |bits| < 8 * count ==> read == None)
            && (count > 8 && |bits| >= 8 * count && bits[0] ==> read == Some((0, Cell(bits[8 * count..], refs))))
            && (|bits| >= 8 * count && (count <= 8 || !bits[0]) ==>
                  read == Some((FromBits(bits[..8 * count]), Cell(bits[8 * count..], refs))))
  {
    hide ToBits, CeilLog2;
    CountRead(count, bits, refs);
  }

  // ----- addresses

  datatype Address = Address(workchain: int, hash: seq<Byte>)

  predicate ValidAddress(a: Address) {
    -128 <= a.workchain < 128 && |a.hash| == 32
  }

  /** Without an address: two zero bits. With one: addr_std$10, no anycast. */
  function AddressCall(a: Option<Address>): Call {
    match a
    case None => BitsCall(ToBits(0, 2))
    case Some(x) =>
      [PutBits(ToBits(2, 2)), PutBits(ToBits(0, 1)), PutBits(ToBits(x.workchain, 8)), PutBits(BytesToBits(x.hash))]
  }

  function AddressBits(a: Option<Address>): Bits {
    match a
    case None => ToBits(0, 2)
    case Some(x) => ToBits(2, 2) + (ToBits(0, 1) + (ToBits(x.workchain, 8) + BytesToBits(x.hash)))
  }

  /** Slice.LoadAddress reads the workchain as an unsigned byte. */
  function FetchAddress(s: Cell): (Option<Address>, Cell) {
    var (flag, s1) := FetchLong(s, 2);
    if flag != 2 then (None, s1)
    else
      var (_, s2) := FetchLong(s1, 1);
      var (workchain, s3) := FetchLong(s2, 8);
      var (hash, s4) := FetchBytes(s3, 32);
      (Some(Address(workchain, hash)), s4)
  }

  lemma AddressContent(a: Option<Address>)
    ensures CallContent(AddressCall(a)) == Cell(AddressBits(a), [])
    ensures a.None? || ValidAddress(a.value) ==> |AddressBits(a)| <= 267
  {
    if a.Some? {
      var x := a.value;
      var flag, anycast, wc, hash := ToBits(2, 2), ToBits(0, 1), ToBits(x.workchain, 8), BytesToBits(x.hash);
      assert AddressCall(a) == [PutBits(flag)] + ([PutBits(anycast)] + ([PutBits(wc)] + BitsCall(hash)));
      CallContentCons(wc, BitsCall(hash));
      CallContentCons(anycast, [PutBits(wc)] + BitsCall(hash));
      CallContentCons(flag, [PutBits(anycast)] + ([PutBits(wc)] + BitsCall(hash)));
    }
  }

  /** The bits of an address: 00 for none, else 10, no anycast (0), workchain and
      hash. */
  lemma AddressLayout(a: Option<Address>)
    ensures a.None? ==> AddressBits(a) == [false, false]
    ensures a.Some? ==>
              AddressBits(a) == [true, false, false] + ToBits(a.value.workchain, 8) + BytesToBits(a.value.hash)
  {
    hide ToBits, BytesToBits;
    FlagBits();
    if a.Some? {
      var rest := ToBits(a.value.workchain, 8) + BytesToBits(a.value.hash);
      assert [true, false] + ([false] + rest) == [true, false, false] + rest;
    }
  }

  lemma FlagBits()
    ensures ToBits(0, 1) == [false] && ToBits(0, 2) == [false, false] && ToBits(2, 2) == [true, false]
  {
    assert ToBits(0, 1) == [false] && ToBits(1, 1) == [true];
    assert ToBits(0, 2) == ToBits(0, 1) + [false] && ToBits(2, 2) == ToBits(1, 1) + [false];
  }

  lemma StoredAddressRead(x: Address, tail: Bits, refs: seq<Cell>)
    requires ValidAddress(x)
    ensures FetchAddress(Cell(AddressBits(Some(x)) + tail, refs))
         == (Some(Address(x.workchain % Pow2(8), x.hash)), Cell(tail, refs))
  {
    var h := BytesToBits(x.hash) + tail;
    var w := ToBits(x.workchain, 8) + h;
    var f := ToBits(0, 1) + w;
    assert AddressBits(Some(x)) + tail == ToBits(2, 2) + f;
    FetchLongOfCode(2, 2, f, refs);
    assert 2 % Pow2(2) == 2;
    FetchLongOfCode(0, 1, w, refs);
    FetchLongOfCode(x.workchain, 8, h, refs);
    FetchBytesOfCode(x.hash, tail, refs);
  }

  /** An address is read back, and no more, exactly when there is none or its
      workchain is not negative (-1 is read as 255). */
  lemma AddressRoundTrip(a: Option<Address>, tail: Bits, refs: seq<Cell>)
    requires a.Some? ==> ValidAddress(a.value)
    ensures FetchAddress(Cell(AddressBits(a) + tail, refs)).1 == Cell(tail, refs)
    ensures FetchAddress(Cell(AddressBits(a) + tail, refs)).0 == a <==> (a.Some? ==> a.value.workchain >= 0)
  {
    match a
    case None =>
      FetchLongOfCode(0, 2, tail, refs);
    case Some(x) =>
      assert Pow2(8) == 256;
      StoredAddressRead(x, tail, refs);
  }
}
