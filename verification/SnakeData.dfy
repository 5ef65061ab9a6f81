/** Long byte strings as a chain of cells (CellBuilder.StoreBuffer), and the
    reader that follows the chain (Slice.LoadString, JettonController.LoadText).
    Text is decoded cell by cell; here the bytes themselves are compared. */
module SnakeData {
  import opened BitStrings
  import opened Builders
  import opened Cells
  import opened Slices
  import opened Wrappers

  const CELL_MAX_SIZE_BYTES: nat := 127

  const SNAKE: nat := 0

  /** Number of the last chunk. */
  function Last(data: seq<Byte>): nat {
    |data| / 127
  }

  function Chunk(data: seq<Byte>, i: nat): seq<Byte>
    requires i <= Last(data)
  {
    data[127 * i..if i == Last(data) then |data| else 127 * (i + 1)]
  }

  /** The cells from chunk i on, none of them prefixed. */
  function Chain(data: seq<Byte>, i: nat): Cell
    requires i <= Last(data)
    decreases Last(data) - i
  {
    Cell(BytesToBits(Chunk(data, i)), if i == Last(data) then [] else [Chain(data, i + 1)])
  }

  /** What the root cell ends up with: a prefix byte, when there is one, may
      leave no room for the chunk. */
  function Root(data: seq<Byte>, prefix: int): Cell {
    var head := if prefix >= 0 then RunCall(EMPTY, LongCall(prefix, 8)) else EMPTY;
    var body := RunCall(head, BytesCall(Chunk(data, 0)));
    if Last(data) == 0 then body else RunCall(body, RefCall(Chain(data, 1)))
  }

  lemma BitsStored(c: Cell, b: Bits)
    requires |c.bits| + |b| <= MAX_BITS && |c.refs| <= MAX_REFS
    ensures RunCall(c, BitsCall(b)) == Cell(c.bits + b, c.refs)
  {
    RunCallFits(c, BitsCall(b));
    assert c.refs + [] == c.refs;
  }

  lemma RefStored(c: Cell, r: Cell)
    requires |c.bits| <= MAX_BITS && |c.refs| < MAX_REFS
    ensures RunCall(c, RefCall(r)) == Cell(c.bits, c.refs + [r])
  {
    RunCallFits(c, RefCall(r));
    assert c.bits + [] == c.bits;
  }

  /** An unprefixed cell has room for its chunk and its tail. */
  lemma ChunkStored(data: seq<Byte>, i: nat)
    requires i <= Last(data)
    ensures var body := RunCall(EMPTY, BytesCall(Chunk(data, i)));
            Chain(data, i) == if i == Last(data) then body else RunCall(body, RefCall(Chain(data, i + 1)))
  {
    var b := BytesToBits(Chunk(data, i));
    BitsStored(EMPTY, b);
    assert [] + b == b;
    if i < Last(data) {
      RefStored(Cell(b, []), Chain(data, i + 1));
    }
  }

  method StoreBuffer(data: seq<Byte>, prefix: int) returns (r: Result<Cell>)
    ensures r == if Last(data) <= MAX_DEPTH then Success(Root(data, prefix)) else Failure("Depth is too big")
  {
    hide Depth, RunCall, Chain, LongCall, BytesCall, RefCall;
    var prev: CellBuilder? := null;
    var current := new CellBuilder.Begin();
    var c, size := |data| / CELL_MAX_SIZE_BYTES, |data| % CELL_MAX_SIZE_BYTES;
    var offset := c * CELL_MAX_SIZE_BYTES;
    var i := c;
    while i >= 0
      invariant -1 <= i <= c == Last(data)
      invariant prev == null <==> i == c
      invariant i >= 0 ==> 0 <= offset && 0 <= size && offset + size <= |data|
      invariant i >= 0 ==> offset == 127 * i && data[offset..offset + size] == Chunk(data, i)
      invariant i >= 0 ==> fresh(current) && current.Now() == EMPTY && prev != current
      invariant prev != null ==> fresh(prev)
      invariant 0 <= i < c ==> prev.Now() == Chain(data, i + 1)
      invariant i == -1 ==> prev != null && prev.Now() == Root(data, prefix)
      decreases i
    {
      if i == 0 && prefix >= 0 {
        current.Store(prefix, 8);
      }
      current.StoreBytes(data[offset..offset + size]);
      if prev != null {
        ChainDepth(data, i + 1);
        var tail := prev.End();
        if tail.Failure? {
          return tail;
        }
        current.StoreRef(tail.value);
      }
      if i > 0 {
        ChunkStored(data, i);
      }
      prev := current;
      if i > 0 {
        current := new CellBuilder.Begin();
        size := CELL_MAX_SIZE_BYTES;
        offset := offset - CELL_MAX_SIZE_BYTES;
      }
      i := i - 1;
    }
    RootDepth(data, prefix);
    r := prev.End();
  }

  lemma {:induction false} ChainDepth(data: seq<Byte>, i: nat)
    requires i <= Last(data)
    ensures Depth(Chain(data, i)) == Last(data) - i
    decreases Last(data) - i
  {
    if i == Last(data) {
    } else {
      ChainDepth(data, i + 1);
      DepthOfOne(BytesToBits(Chunk(data, i)), Chain(data, i + 1));
    }
  }

  /** The tail reference always fits, whatever happens to the chunk. */
  lemma RootDepth(data: seq<Byte>, prefix: int)
    ensures Depth(Root(data, prefix)) == Last(data)
  {
    var head := if prefix >= 0 then RunCall(EMPTY, LongCall(prefix, 8)) else EMPTY;
    var body := RunCall(head, BytesCall(Chunk(data, 0)));
    RunCallExtends(EMPTY, LongCall(prefix, 8));
    RunCallExtends(head, BytesCall(Chunk(data, 0)));
    assert CallContent(BytesCall(Chunk(data, 0))).refs == [];
    assert CallContent(LongCall(prefix, 8)).refs == [];
    assert body.refs == [];
    if Last(data) > 0 {
      RefStored(body, Chain(data, 1));
      assert Root(data, prefix) == Cell(body.bits, [Chain(data, 1)]);
      ChainDepth(data, 1);
      DepthOfOne(body.bits, Chain(data, 1));
    }
  }

  // ----- reading

  /** The bytes a chain holds, and null (None) for a single cell without any. */
  function ReadString(c: Cell): Option<seq<Byte>>
    decreases c
  {
    var own := if c.bits == [] then None else Some(BitsToBytes(c.bits));
    if c.refs == [] then own
    else Some(Text(own) + Text(ReadString(c.refs[0])))
  }

  /** C# concatenates null as the empty string. */
  function Text(s: Option<seq<Byte>>): seq<Byte> {
    match s
    case None => []
    case Some(x) => x
  }

  method LoadString(slice: Slice) returns (value: Option<seq<Byte>>)
    modifies slice
    ensures value == ReadString(old(slice.Rest()))
    decreases slice.Rest()
  {
    value := None;
    if |slice.bits| > 0 {
      assert slice.bits[..8 * (|slice.bits| / 8)] + slice.bits[8 * (|slice.bits| / 8)..] == slice.bits;
      WholeBytes(slice.bits);
      var data := slice.LoadBytes(|slice.bits| / 8);
      value := Some(data);
    }
    if |slice.refs| > 0 {
      var child := slice.LoadRef();
      var rest := LoadString(child);
      value := Some(Text(value) + Text(rest));
    }
  }

  lemma {:induction false} WholeBytes(b: Bits)
    ensures BitsToBytes(b[..8 * (|b| / 8)]) == BitsToBytes(b)
  {
    if |b| >= 8 {
      var front := b[..8 * (|b| / 8)];
      assert front[..8] == b[..8];
      assert front[8..] == b[8..][..8 * (|b[8..]| / 8)];
      WholeBytes(b[8..]);
    } else {
      assert b[..8 * (|b| / 8)] == [];
    }
  }

  method LoadText(slice: Slice) returns (value: Option<seq<Byte>>)
    modifies slice
    ensures value == ReadText(old(slice.Rest()))
    ensures |old(slice.bits)| >= 8 && FromBits(old(slice.bits)[..8]) != 0 ==> value == None
    ensures |old(slice.bits)| >= 8 && FromBits(old(slice.bits)[..8]) == 0 ==>
              value == ReadString(Cell(old(slice.bits)[8..], old(slice.refs)))
    ensures |old(slice.bits)| < 8 ==> value == ReadString(old(slice.Rest()))
  {
    var format := slice.LoadLong(8);
    if format == SNAKE {
      value := LoadString(slice);
    } else {
      value := None;
    }
  }

  function ReadText(c: Cell): Option<seq<Byte>> {
    var (format, rest) := FetchLong(c, 8);
    if format == SNAKE then ReadString(rest) else None
  }

  // ----- what the chain keeps

  function CellCount(c: Cell): nat
    decreases c
  {
    1 + if c.refs == [] then 0 else CellCount(c.refs[0])
  }

  /** Every cell of the chain: at most 127 bytes and one reference. */
  predicate SnakeShaped(c: Cell)
    decreases c
  {
    |c.bits| <= 8 * 127 && |c.refs| <= 1 && (c.refs != [] ==> SnakeShaped(c.refs[0]))
  }

  /** From chunk i on, the chain has the remaining bytes. */
  lemma {:induction false} ChainReads(data: seq<Byte>, i: nat)
    requires i <= Last(data)
    ensures Text(ReadString(Chain(data, i))) == data[127 * i..]
    ensures ReadString(Chain(data, i)).None? <==> 127 * i == |data|
    ensures CellCount(Chain(data, i)) == Last(data) - i + 1
    ensures SnakeShaped(Chain(data, i))
    decreases Last(data) - i
  {
    hide BytesToBits, BitsToBytes;
    var own := Chunk(data, i);
    BytesRoundTrip(own, []);
    assert BytesToBits(own) + [] == BytesToBits(own);
    if i < Last(data) {
      ChainReads(data, i + 1);
      assert data[127 * i..] == own + data[127 * (i + 1)..];
    } else {
      assert own == data[127 * i..];
    }
  }

  /** The unprefixed chain loses nothing, for every byte string: it has
      len / 127 + 1 cells of at most 127 bytes and one reference each. */
  lemma SnakeRoundTrip(data: seq<Byte>)
    ensures ReadString(Root(data, -1)) == if data == [] then None else Some(data)
    ensures CellCount(Root(data, -1)) == |data| / 127 + 1
    ensures SnakeShaped(Root(data, -1))
  {
    ChunkStored(data, 0);
    assert Root(data, -1) == Chain(data, 0);
    ChainReads(data, 0);
    assert data[127 * 0..] == data;
  }

  /** With a format byte in front, a full root chunk no longer fits and is
      dropped, and the chain holds the rest. */
  lemma PrefixedRoot(data: seq<Byte>, prefix: nat)
    requires prefix < 256
    ensures Root(data, prefix)
         == Cell(ToBits(prefix, 8) + (if |data| <= 126 then BytesToBits(data) else []),
                 if |data| <= 126 then [] else [Chain(data, 1)])
  {
    var format := ToBits(prefix, 8);
    BitsStored(EMPTY, format);
    assert [] + format == format;
    var head := Cell(format, []);
    if |data| <= 126 {
      assert Chunk(data, 0) == data;
      BitsStored(head, BytesToBits(data));
    } else {
      assert RunCall(head, BytesCall(Chunk(data, 0))) == head;
      RefStored(head, Chain(data, 1));
      assert format + [] == format;
    }
  }

  /** Writing text in snake format and reading it with LoadText is lossless
      exactly up to 126 bytes; beyond, the first 127 bytes are gone. */
  lemma PrefixedRoundTrip(data: seq<Byte>)
    ensures ReadText(Root(data, SNAKE)) == (if data == [] then None else Some(data)) <==> |data| <= 126
    ensures |data| >= 127 ==> ReadText(Root(data, SNAKE)) == Some(data[127..])
  {
    PrefixedRoot(data, SNAKE);
    var bits := if |data| <= 126 then BytesToBits(data) else [];
    var refs := if |data| <= 126 then [] else [Chain(data, 1)];
    FetchLongOfCode(SNAKE, 8, bits, refs);
    if |data| <= 126 {
      BytesRoundTrip(data, []);
      assert BytesToBits(data) + [] == BytesToBits(data);
    } else {
      ChainReads(data, 1);
      assert ReadString(Cell([], refs)) == Some([] + data[127..]);
      assert [] + data[127..] == data[127..];
    }
  }
}
