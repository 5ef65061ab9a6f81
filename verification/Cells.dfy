/** Cells and the meaning of the native stores and loads on them.

    A store is all-or-nothing: when it does not fit, the native function returns
    false and leaves the builder alone, and the managed wrapper ignores the
    answer. So a sequence of stores always "works", but may lose data. */
module Cells {
  import opened BitStrings
  import opened Wrappers

  const MAX_BITS: nat := 1023
  const MAX_REFS: nat := 4

  datatype Cell = Cell(bits: Bits, refs: seq<Cell>)

  const EMPTY := Cell([], [])

  predicate InBounds(c: Cell) {
    |c.bits| <= MAX_BITS && |c.refs| <= MAX_REFS
  }

  const MAX_DEPTH: nat := 1024

  function Depth(c: Cell): nat
    decreases c
  {
    if c.refs == [] then 0 else 1 + MaxDepth(c.refs)
  }

  function MaxDepth(refs: seq<Cell>): nat
    decreases refs
  {
    if refs == [] then 0
    else
      var first, rest := Depth(refs[0]), MaxDepth(refs[1..]);
      if first < rest then rest else first
  }

  lemma DepthOfOne(bits: Bits, r: Cell)
    ensures Depth(Cell(bits, [r])) == 1 + Depth(r)
  {
    var refs := [r];
    assert refs[1..] == [] && MaxDepth(refs[1..]) == 0;
    assert MaxDepth(refs) == Depth(r);
  }

  lemma DepthOfTwo(bits: Bits, l: Cell, r: Cell)
    ensures Depth(Cell(bits, [l, r])) == 1 + if Depth(l) < Depth(r) then Depth(r) else Depth(l)
  {
    var refs := [l, r];
    assert refs[1..] == [r] && refs[1..][1..] == [];
    assert MaxDepth(refs[1..][1..]) == 0;
    assert MaxDepth(refs[1..]) == Depth(r);
    assert MaxDepth(refs) == if Depth(l) < Depth(r) then Depth(r) else Depth(l);
  }

  datatype Part = PutBits(bits: Bits) | PutRef(cell: Cell)

  /** One native call: its parts are joined by &&, so the first part that does
      not fit ends the call. */
  type Call = seq<Part>

  predicate PartFits(c: Cell, p: Part) {
    match p
    case PutBits(b) => |c.bits| + |b| <= MAX_BITS
    case PutRef(_) => |c.refs| < MAX_REFS
  }

  function AddPart(c: Cell, p: Part): Cell {
    match p
    case PutBits(b) => Cell(c.bits + b, c.refs)
    case PutRef(r) => Cell(c.bits, c.refs + [r])
  }

  function RunCall(c: Cell, call: Call): Cell
    decreases call
  {
    if call == [] || !PartFits(c, call[0]) then c
    else RunCall(AddPart(c, call[0]), call[1..])
  }

  /** A chain of builder calls, whatever each of them answers. */
  function Run(c: Cell, calls: seq<Call>): Cell
    decreases calls
  {
    if calls == [] then c else Run(RunCall(c, calls[0]), calls[1..])
  }

  lemma RunCons(c: Cell, call: Call, rest: seq<Call>)
    ensures Run(c, [call] + rest) == Run(RunCall(c, call), rest)
    ensures Run(c, [call]) == RunCall(c, call)
  {
    assert ([call] + rest)[1..] == rest;
    assert [call][1..] == [];
  }

  // ----- what a chain of calls asks to store

  function CallContent(call: Call): Cell {
    if call == [] then EMPTY
    else
      var rest := CallContent(call[1..]);
      match call[0]
      case PutBits(b) => Cell(b + rest.bits, rest.refs)
      case PutRef(r) => Cell(rest.bits, [r] + rest.refs)
  }

  function Content(calls: seq<Call>): Cell {
    if calls == [] then EMPTY
    else Join(CallContent(calls[0]), Content(calls[1..]))
  }

  function Join(a: Cell, b: Cell): Cell {
    Cell(a.bits + b.bits, a.refs + b.refs)
  }

  predicate CallsFit(c: Cell, calls: seq<Call>) {
    InBounds(Join(c, Content(calls)))
  }

  /** When the total fits, nothing is dropped. */
  lemma {:induction false} RunCallFits(c: Cell, call: Call)
    requires InBounds(Join(c, CallContent(call)))
    ensures RunCall(c, call) == Join(c, CallContent(call))
    decreases call
  {
    if call == [] {
    } else {
      var rest := CallContent(call[1..]);
      var c' := AddPart(c, call[0]);
      assert Join(c', rest) == Join(c, CallContent(call)) by {
        match call[0]
        case PutBits(b) => assert (c.bits + b) + rest.bits == c.bits + (b + rest.bits);
        case PutRef(r) => assert (c.refs + [r]) + rest.refs == c.refs + ([r] + rest.refs);
      }
      RunCallFits(c', call[1..]);
    }
  }

  lemma JoinAssociative(a: Cell, b: Cell, c: Cell)
    ensures Join(Join(a, b), c) == Join(a, Join(b, c))
  {
    assert (a.bits + b.bits) + c.bits == a.bits + (b.bits + c.bits);
    assert (a.refs + b.refs) + c.refs == a.refs + (b.refs + c.refs);
  }

  lemma {:induction false} RunFits(c: Cell, calls: seq<Call>)
    requires CallsFit(c, calls)
    ensures Run(c, calls) == Join(c, Content(calls))
    decreases calls
  {
    if calls == [] {
    } else {
      var first, rest := CallContent(calls[0]), Content(calls[1..]);
      JoinAssociative(c, first, rest);
      RunCallFits(c, calls[0]);
      RunFits(Join(c, first), calls[1..]);
    }
  }

  /** b is a with something appended, no more than extra holds. */
  predicate Extends(a: Cell, b: Cell, extra: Cell) {
    && a.bits <= b.bits && |b.bits| <= |a.bits| + |extra.bits|
    && a.refs <= b.refs && |b.refs| <= |a.refs| + |extra.refs|
  }

  lemma {:induction false} RunCallExtends(c: Cell, call: Call)
    ensures Extends(c, RunCall(c, call), CallContent(call))
    ensures InBounds(c) ==> InBounds(RunCall(c, call))
    decreases call
  {
    if call != [] && PartFits(c, call[0]) {
      RunCallExtends(AddPart(c, call[0]), call[1..]);
    }
  }

  lemma {:induction false} RunExtends(c: Cell, calls: seq<Call>)
    ensures Extends(c, Run(c, calls), Content(calls))
    ensures InBounds(c) ==> InBounds(Run(c, calls))
    decreases calls
  {
    if calls == [] {
    } else {
      RunCallExtends(c, calls[0]);
      RunExtends(RunCall(c, calls[0]), calls[1..]);
    }
  }

  /** What a run adds to a cell. */
  function Added(c: Cell, calls: seq<Call>): Cell {
    var r := Run(c, calls);
    RunExtends(c, calls);
    Cell(r.bits[|c.bits|..], r.refs[|c.refs|..])
  }

  /** Nothing is lost exactly when the total fits. */
  lemma NothingLostIffFits(c: Cell, calls: seq<Call>)
    requires InBounds(c)
    ensures Added(c, calls) == Content(calls) <==> CallsFit(c, calls)
    ensures Run(c, calls) == Join(c, Added(c, calls))
  {
    RunExtends(c, calls);
    if CallsFit(c, calls) {
      RunFits(c, calls);
    }
  }

  lemma {:induction false} RunConcat(c: Cell, a: seq<Call>, b: seq<Call>)
    ensures Run(c, a + b) == Run(Run(c, a), b)
    decreases a
  {
    if a == [] {
      assert a + b == b;
    } else {
      assert (a + b)[1..] == a[1..] + b;
      RunConcat(RunCall(c, a[0]), a[1..], b);
    }
  }

  lemma {:induction false} ContentConcat(a: seq<Call>, b: seq<Call>)
    ensures Content(a + b) == Join(Content(a), Content(b))
  {
    if a == [] {
      assert a + b == b;
    } else {
      assert (a + b)[1..] == a[1..] + b;
      ContentConcat(a[1..], b);
      JoinAssociative(CallContent(a[0]), Content(a[1..]), Content(b));
    }
  }

  lemma ContentOfOne(call: Call)
    ensures Content([call]) == CallContent(call)
  {
    assert [call][1..] == [];
    assert Join(CallContent(call), EMPTY) == CallContent(call);
  }

  lemma ContentCons(call: Call, rest: seq<Call>)
    ensures Content([call] + rest) == Join(CallContent(call), Content(rest))
  {
    ContentOfOne(call);
    ContentConcat([call], rest);
  }

  lemma CallContentCons(b: Bits, rest: Call)
    ensures CallContent([PutBits(b)] + rest) == Cell(b + CallContent(rest).bits, CallContent(rest).refs)
  {
    assert ([PutBits(b)] + rest)[1..] == rest;
  }

  /** A call stops at its first part that does not fit: the parts before it stay,
      and none behind it is tried. */
  lemma {:induction false} RunCallStops(c: Cell, a: Call, p: Part, b: Call)
    requires InBounds(Join(c, CallContent(a))) && !PartFits(Join(c, CallContent(a)), p)
    ensures RunCall(c, a + [p] + b) == Join(c, CallContent(a))
    decreases a
  {
    var call := a + [p] + b;
    if a == [] {
      assert call[0] == p;
    } else {
      var rest := CallContent(a[1..]);
      var c' := AddPart(c, a[0]);
      assert call[1..] == a[1..] + [p] + b && call[0] == a[0];
      assert Join(c', rest) == Join(c, CallContent(a)) by {
        match a[0]
        case PutBits(x) => assert (c.bits + x) + rest.bits == c.bits + (x + rest.bits);
        case PutRef(r) => assert (c.refs + [r]) + rest.refs == c.refs + ([r] + rest.refs);
      }
      RunCallStops(c', a[1..], p, b);
    }
  }

  // ----- the calls of the builder

  function BitsCall(b: Bits): (call: Call)
    ensures CallContent(call) == Cell(b, [])
  {
    var call := [PutBits(b)];
    assert CallContent(call[1..]) == EMPTY;
    call
  }

  /** store_long_bool refuses widths above 64. */
  function LongCall(value: int, width: nat): Call {
    if width > 64 then [] else BitsCall(ToBits(value, width))
  }

  function BytesCall(s: seq<Byte>): Call {
    BitsCall(BytesToBits(s))
  }

  function RefCall(c: Cell): (call: Call)
    ensures CallContent(call) == Cell([], [c])
  {
    var call := [PutRef(c)];
    assert CallContent(call[1..]) == EMPTY;
    call
  }

  /** One single-bit call per bit. */
  function BitCalls(b: Bits): (calls: seq<Call>)
    ensures |calls| == |b|
  {
    if b == [] then [] else [BitsCall([b[0]])] + BitCalls(b[1..])
  }

  lemma {:induction false} BitCallsContent(b: Bits)
    ensures Content(BitCalls(b)) == Cell(b, [])
  {
    if b == [] {
    } else {
      BitCallsContent(b[1..]);
      assert BitCalls(b)[1..] == BitCalls(b[1..]);
    }
  }

  lemma {:induction false} BitCallsConcat(a: Bits, b: Bits)
    ensures BitCalls(a + b) == BitCalls(a) + BitCalls(b)
  {
    if a == [] {
      assert a + b == b;
    } else {
      BitCallsConcat(a[1..], b);
      assert (a + b)[1..] == a[1..] + b;
    }
  }

  // ----- loads; the cell holds what has not been read yet

  /** fetch_ulong_bool: on a short slice the caller's zero stays and nothing is
      consumed. */
  function FetchLong(s: Cell, width: nat): (nat, Cell) {
    if width > 64 || |s.bits| < width then (0, s)
    else (FromBits(s.bits[..width]), Cell(s.bits[width..], s.refs))
  }

  /** fetch_bytes into a zeroed buffer. */
  function FetchBytes(s: Cell, count: nat): (seq<Byte>, Cell) {
    if |s.bits| < 8 * count then (seq(count, i => 0), s)
    else (BitsToBytes(s.bits[..8 * count]), Cell(s.bits[8 * count..], s.refs))
  }

  lemma FetchLongOfCode(value: int, width: nat, tail: Bits, refs: seq<Cell>)
    requires width <= 64
    ensures FetchLong(Cell(ToBits(value, width) + tail, refs), width) == (value % Pow2(width), Cell(tail, refs))
  {
    var s := ToBits(value, width) + tail;
    assert s[..width] == ToBits(value, width) && s[width..] == tail;
    FromToBits(value, width);
  }

  lemma FetchBytesOfCode(data: seq<Byte>, tail: Bits, refs: seq<Cell>)
    ensures FetchBytes(Cell(BytesToBits(data) + tail, refs), |data|) == (data, Cell(tail, refs))
  {
    var b := BytesToBits(data);
    assert (b + tail)[..8 * |data|] == b && (b + tail)[8 * |data|..] == tail;
    assert b + [] == b;
    BytesRoundTrip(data, []);
  }
}
