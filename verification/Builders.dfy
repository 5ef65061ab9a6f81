/** The managed builder and slice objects: every call changes its object in
    place, and a store that does not fit is silently dropped. */
module Builders {
  import opened BitStrings
  import opened Cells
  import opened Codecs
  import opened Wrappers

  /** Offset stores zeros, 64 at a time. */
  function OffsetCalls(bits: int): seq<Call>
    decreases bits
  {
    if bits <= 0 then []
    else [LongCall(0, if bits < 64 then bits else 64)] + OffsetCalls(bits - 64)
  }

  /** It asks for exactly as many zeros as wanted, whatever the number. */
  lemma {:induction false} OffsetContent(bits: nat)
    ensures Content(OffsetCalls(bits)) == Cell(ToBits(0, bits), [])
    decreases bits
  {
    if bits > 64 {
      OffsetContent(bits - 64);
      ContentCons(LongCall(0, 64), OffsetCalls(bits - 64));
      ToBitsSplit(0, 64, bits - 64);
    } else if bits > 0 {
      assert OffsetCalls(bits - 64) == [];
      ContentOfOne(LongCall(0, bits));
      assert OffsetCalls(bits) == [LongCall(0, bits)];
    }
  }

  /** All of its stores but the last are 64 bits wide. */
  lemma {:induction false} OffsetWidths(bits: nat, i: nat)
    requires i < |OffsetCalls(bits)|
    ensures |OffsetCalls(bits)| == (bits + 63) / 64
    ensures OffsetCalls(bits)[i] == LongCall(0, if bits - 64 * i < 64 then bits - 64 * i else 64)
    decreases bits
  {
    if bits <= 64 {
      assert OffsetCalls(bits - 64) == [];
    } else {
      OffsetWidths(bits - 64, if i == 0 then 0 else i - 1);
    }
  }

  /** A dictionary field: a bit, and the root when there is one. */
  function DictCall(root: Option<Cell>): Call {
    match root
    case None => [PutBits([false])]
    case Some(c) => [PutBits([true]), PutRef(c)]
  }

  /** The presence bit is tried first, so without room for it the reference is not
      tried either (RunCallStops). */
  lemma DictLayout(root: Option<Cell>)
    ensures root.None? ==> CallContent(DictCall(root)) == Cell([false], [])
    ensures root.Some? ==> CallContent(DictCall(root)) == Cell([true], [root.value])
    ensures root.Some? ==> |DictCall(root)| == 2 && DictCall(root)[0] == PutBits([true])
  {
    match root
    case None =>
      assert DictCall(root) == BitsCall([false]);
    case Some(c) =>
      assert DictCall(root) == [PutBits([true])] + RefCall(c);
      CallContentCons([true], RefCall(c));
  }

  class CellBuilder {
    var bits: Bits
    var refs: seq<Cell>

    function Now(): Cell
      reads this
    {
      Cell(bits, refs)
    }

    constructor Begin()
      ensures Now() == EMPTY
    {
      bits, refs := [], [];
    }

    /** Finalizing throws when the cell would be more than 1024 levels deep. */
    method End() returns (r: Result<Cell>)
      ensures r.Success? <==> Depth(Now()) <= MAX_DEPTH
      ensures r.Success? ==> r.value == Now()
      ensures r.Failure? ==> r.error == "Depth is too big"
    {
      r := if Depth(Now()) <= MAX_DEPTH then Success(Now()) else Failure("Depth is too big");
    }

    /** One native call: the stores of its parts joined by &&. */
    method Native(call: Call)
      modifies this
      ensures Now() == RunCall(old(Now()), call)
    {
      var i := 0;
      while i < |call| && PartFits(Now(), call[i])
        invariant 0 <= i <= |call|
        invariant RunCall(Now(), call[i..]) == RunCall(old(Now()), call)
        decreases |call| - i
      {
        assert call[i..][1..] == call[i + 1..];
        match call[i] {
          case PutBits(b) => bits := bits + b;
          case PutRef(r) => refs := refs + [r];
        }
        i := i + 1;
      }
    }

    method Store(value: int, width: nat)
      modifies this
      ensures Now() == RunCall(old(Now()), LongCall(value, width))
    {
      Native(LongCall(value, width));
    }

    method StoreBool(value: bool)
      modifies this
      ensures Now() == RunCall(old(Now()), BitsCall([value]))
    {
      Store(if value then 1 else 0, 1);
      assert ToBits(1, 1) == [true] && ToBits(0, 1) == [false];
    }

    method Offset(bits: int)
      modifies this
      ensures Now() == Run(old(Now()), OffsetCalls(bits))
    {
      var left := bits;
      while left > 0
        invariant Run(Now(), OffsetCalls(left)) == Run(old(Now()), OffsetCalls(bits))
      {
        RunCons(Now(), LongCall(0, if left < 64 then left else 64), OffsetCalls(left - 64));
        Store(0, if left < 64 then left else 64);
        left := left - 64;
      }
    }

    method StoreDict(root: Option<Cell>)
      modifies this
      ensures Now() == RunCall(old(Now()), DictCall(root))
    {
      Native(DictCall(root));
    }

    method StoreBytes(value: seq<Byte>)
      modifies this
      ensures Now() == RunCall(old(Now()), BytesCall(value))
    {
      Native(BytesCall(value));
    }

    method StoreRef(cell: Cell)
      modifies this
      ensures Now() == RunCall(old(Now()), RefCall(cell))
    {
      Native(RefCall(cell));
    }

    method StoreCoins(value: nat)
      modifies this
      ensures Now() == Run(old(Now()), CoinsCalls(value))
    {
      ghost var start := Now();
      if value == 0 {
        RunCons(start, LongCall(0, 4), []);
        Store(0, 4);
      } else {
        var data := BytesOf(value, ByteCount(value));
        assert CoinsCalls(value) == [LongCall(|data|, 4)] + [BytesCall(data)];
        RunCons(start, LongCall(|data|, 4), [BytesCall(data)]);
        Store(|data|, 4);
        RunCons(Now(), BytesCall(data), []);
        StoreBytes(data);
      }
    }

    method StoreAddress(address: Option<Address>)
      modifies this
      ensures Now() == RunCall(old(Now()), AddressCall(address))
    {
      Native(AddressCall(address));
    }

    /** A run of stores requested by a caller's serializer. */
    method StoreAll(calls: seq<Call>)
      modifies this
      ensures Now() == Run(old(Now()), calls)
    {
      for i := 0 to |calls|
        invariant Run(Now(), calls[i..]) == Run(old(Now()), calls)
      {
        assert calls[i..][1..] == calls[i + 1..];
        Native(calls[i]);
      }
    }
  }
}
