/** The managed slice object: every load moves its read position. */
module Slices {
  import opened BitStrings
  import opened Cells
  import opened Codecs
  import opened Wrappers

  class Slice {
    var bits: Bits
    var refs: seq<Cell>

    function Rest(): Cell
      reads this
    {
      Cell(bits, refs)
    }

    constructor Create(cell: Cell)
      ensures Rest() == cell
    {
      bits, refs := cell.bits, cell.refs;
    }

    method LoadLong(width: nat) returns (value: nat)
      modifies this
      ensures (value, Rest()) == FetchLong(old(Rest()), width)
      ensures if width <= 64 && width <= |old(bits)| then old(bits) == old(bits)[..width] + bits && FromBits(old(bits)[..width]) == value
              else value == 0 && bits == old(bits)
    {
      value := 0;
      if width <= 64 && |bits| >= width {
        value := FromBits(bits[..width]);
        bits := bits[width..];
      }
    }

    method LoadBytes(count: nat) returns (data: seq<Byte>)
      modifies this
      ensures (data, Rest()) == FetchBytes(old(Rest()), count)
      ensures |old(bits)| < 8 * count ==> bits == old(bits) && forall i :: 0 <= i < count ==> data[i] == 0
    {
      if |bits| < 8 * count {
        data := seq(count, i => 0);
      } else {
        data := BitsToBytes(bits[..8 * count]);
        bits := bits[8 * count..];
      }
    }

    method LoadRef() returns (child: Slice)
      requires refs != []
      modifies this
      ensures fresh(child) && child.Rest() == old(refs[0])
      ensures bits == old(bits) && refs == old(refs[1..])
    {
      child := new Slice.Create(refs[0]);
      refs := refs[1..];
    }

    /** None stands for the crash on a slice too short for a big integer. */
    method LoadCoins() returns (value: Option<nat>)
      modifies this
      ensures match FetchCoins(old(Rest()))
              case None => value == None
              case Some((v, rest)) => value == Some(v) && Rest() == rest
    {
      var size := CeilLog2(16);
      var count := LoadLong(size);
      var width := count * 8;
      if width <= 64 {
        var v := LoadLong(width);
        return Some(v);
      }
      if |bits| < width {
        return None;
      }
      var u, negative := FromBits(bits[..width]), bits[0];
      bits := bits[width..];
      return Some(if negative then 0 else u);
    }

    method LoadAddress() returns (address: Option<Address>)
      modifies this
      ensures (address, Rest()) == FetchAddress(old(Rest()))
    {
      var flag := LoadLong(2);
      if flag == 2 {
        var offset := LoadLong(1);
        var workchain := LoadLong(8);
        var hash := LoadBytes(32);
        return Some(Address(workchain, hash));
      }
      return None;
    }
  }
}
