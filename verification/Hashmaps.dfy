/** Writing a trie as a tree of cells (SerializeDict), and an independent reader
    written from the rules hm_edge, hmn_leaf and hmn_fork. */
module Hashmaps {
  import opened BitStrings
  import opened Cells
  import opened Builders
  import opened HashmapLabels
  import opened Tries
  import opened Wrappers

  /** What the caller's serializer asks the builder to store for a value. */
  type Serializer<!V> = V -> seq<Call>

  // ----- writing

  function EdgeCalls<V>(t: Tree<V>, n: nat, ser: Serializer<V>): seq<Call>
    requires WellFormed(t, n)
    decreases t, 1
  {
    LabelCalls(t.path, n) + NodeCalls(t, n - |t.path|, ser)
  }

  /** m is the number of key bits below the edge's path. */
  function NodeCalls<V>(t: Tree<V>, m: nat, ser: Serializer<V>): seq<Call>
    requires WellFormed(t, m + |t.path|)
    decreases t, 0
  {
    match t.node
    case Leaf(v) => ser(v)
    case Fork(l, r) => [RefCall(EdgeCell(l, m - 1, ser)), RefCall(EdgeCell(r, m - 1, ser))]
  }

  function EdgeCell<V>(t: Tree<V>, n: nat, ser: Serializer<V>): Cell
    requires WellFormed(t, n)
    decreases t, 2
  {
    Run(EMPTY, EdgeCalls(t, n, ser))
  }

  /** Whether both children of the node can be finalized. */
  predicate ChildrenEnd<V>(t: Tree<V>, m: nat, ser: Serializer<V>)
    requires WellFormed(t, m + |t.path|)
  {
    match t.node
    case Leaf(_) => true
    case Fork(l, r) => Depth(EdgeCell(l, m - 1, ser)) <= MAX_DEPTH && Depth(EdgeCell(r, m - 1, ser)) <= MAX_DEPTH
  }

  /** Finalizing a cell that is too deep throws, and the exception passes through. */
  method WriteNode<V>(t: Tree<V>, m: nat, ser: Serializer<V>, to: CellBuilder) returns (ok: Result<()>)
    requires WellFormed(t, m + |t.path|) && m + |t.path| < INT_MAX
    modifies to
    ensures ok.Success? <==> ChildrenEnd(t, m, ser)
    ensures ok.Success? ==> to.Now() == Run(old(to.Now()), NodeCalls(t, m, ser))
    decreases t, 0
  {
    hide Run, RunCall, Depth, LabelCalls;
    if t.node.Leaf? {
      to.StoreAll(ser(t.node.value));
    } else {
      var leftCell := new CellBuilder.Begin();
      var rightCell := new CellBuilder.Begin();
      var l := WriteEdgeCell(t.node.left, m - 1, ser, leftCell);
      if l.Failure? {
        return Failure(l.error);
      }
      var r := WriteEdgeCell(t.node.right, m - 1, ser, rightCell);
      if r.Failure? {
        return Failure(r.error);
      }
      RunCons(to.Now(), RefCall(l.value), [RefCall(r.value)]);
      assert [RefCall(l.value), RefCall(r.value)] == [RefCall(l.value)] + [RefCall(r.value)];
      to.StoreRef(l.value);
      RunCons(to.Now(), RefCall(r.value), []);
      to.StoreRef(r.value);
    }
    ok := Success(());
  }

  /** A whole cell: the edge written to an empty builder, which is then ended. */
  method WriteEdgeCell<V>(t: Tree<V>, n: nat, ser: Serializer<V>, builder: CellBuilder) returns (r: Result<Cell>)
    requires WellFormed(t, n) && n < INT_MAX && builder.Now() == EMPTY
    modifies builder
    ensures r.Success? <==> Depth(EdgeCell(t, n, ser)) <= MAX_DEPTH
    ensures r.Success? ==> r.value == EdgeCell(t, n, ser)
    decreases t, 2
  {
    hide Run, Depth;
    ChildrenEndBelow(t, n, ser);
    var ok := WriteEdge(t, n, ser, builder);
    if ok.Failure? {
      return Failure(ok.error);
    }
    r := builder.End();
  }

  method WriteEdge<V>(t: Tree<V>, n: nat, ser: Serializer<V>, to: CellBuilder) returns (ok: Result<()>)
    requires WellFormed(t, n) && n < INT_MAX
    modifies to
    ensures ok.Success? <==> ChildrenEnd(t, n - |t.path|, ser)
    ensures ok.Success? ==> to.Now() == Run(old(to.Now()), EdgeCalls(t, n, ser))
    decreases t, 1
  {
    hide Run, NodeCalls, LabelCalls, ChildrenEnd;
    RunConcat(to.Now(), LabelCalls(t.path, n), NodeCalls(t, n - |t.path|, ser));
    WriteLabel(t.path, n, to);
    ok := WriteNode(t, n - |t.path|, ser, to);
  }

  /** A fork always keeps both references, whatever happens to its label. */
  lemma ForkRefs<V>(t: Tree<V>, n: nat, ser: Serializer<V>)
    requires WellFormed(t, n) && n < INT_MAX && t.node.Fork?
    ensures var m := n - |t.path| - 1;
            EdgeCell(t, n, ser).refs == [EdgeCell(t.node.left, m, ser), EdgeCell(t.node.right, m, ser)]
  {
    var m := n - |t.path| - 1;
    var left, right := EdgeCell(t.node.left, m, ser), EdgeCell(t.node.right, m, ser);
    var calls := LabelCalls(t.path, n);
    LabelContent(t.path, n);
    RunExtends(EMPTY, calls);
    assert EdgeCalls(t, n, ser) == calls + [RefCall(left), RefCall(right)];
    RunConcat(EMPTY, calls, [RefCall(left), RefCall(right)]);
    TwoRefs(Run(EMPTY, calls), left, right);
  }

  lemma ChildrenEndBelow<V>(t: Tree<V>, n: nat, ser: Serializer<V>)
    requires WellFormed(t, n) && n < INT_MAX
    ensures Depth(EdgeCell(t, n, ser)) <= MAX_DEPTH ==> ChildrenEnd(t, n - |t.path|, ser)
  {
    hide EdgeCell, Depth;
    if t.node.Fork? {
      ForkCellDepth(t, n, ser);
    }
  }

  // ----- reading

  /** Hashmap n X: a label, then a value when no key bit is left, else exactly
      two children. A leaf keeps what is left of its cell as the value. */
  function ReadEdge(c: Cell, n: nat): (r: Option<Tree<Cell>>)
    ensures r.Some? ==> WellFormed(r.value, n)
    decreases n
  {
    match ReadLabel(c.bits, n)
    case None => None
    case Some((path, rest)) =>
      var m := n - |path|;
      if m == 0 then Some(Edge(path, Leaf(Cell(rest, c.refs))))
      else if rest != [] || |c.refs| != 2 then None
      else
        BothSides(path, ReadEdge(c.refs[0], m - 1), ReadEdge(c.refs[1], m - 1))
  }

  function BothSides(path: Bits, left: Option<Tree<Cell>>, right: Option<Tree<Cell>>): Option<Tree<Cell>> {
    if left.None? || right.None? then None else Some(Edge(path, Fork(left.value, right.value)))
  }

  /** All entries of a trie. */
  function Entries<V>(t: Tree<V>): map<Bits, V>
    decreases t
  {
    match t.node
    case Leaf(v) => map[t.path := v]
    case Fork(l, r) => Below(t.path + [false], Entries(l)) + Below(t.path + [true], Entries(r))
  }

  function Below<V>(prefix: Bits, m: map<Bits, V>): map<Bits, V> {
    map k | k in (set x | x in m :: prefix + x) :: m[k[|prefix|..]]
  }

  function ReadMap(c: Cell, n: nat): Option<map<Bits, Cell>> {
    match ReadEdge(c, n)
    case None => None
    case Some(t) => Some(Entries(t))
  }

  // ----- the round trip

  /** The trie with each value replaced by what its serializer asks to store. */
  function Payloads<V>(t: Tree<V>, ser: Serializer<V>): Tree<Cell>
    decreases t
  {
    match t.node
    case Leaf(v) => Edge(t.path, Leaf(Content(ser(v))))
    case Fork(l, r) => Edge(t.path, Fork(Payloads(l, ser), Payloads(r, ser)))
  }

  /** No cell of the serialized trie would exceed 1023 bits or 4 references. */
  predicate Fits<V>(t: Tree<V>, n: nat, ser: Serializer<V>)
    requires WellFormed(t, n)
    decreases t
  {
    match t.node
    case Leaf(v) => InBounds(Join(Cell(LabelBits(t.path, n), []), Content(ser(v))))
    case Fork(l, r) =>
      && |LabelBits(t.path, n)| <= MAX_BITS
      && Fits(l, n - |t.path| - 1, ser)
      && Fits(r, n - |t.path| - 1, ser)
  }

  /** The label is written whole when it fits; what follows it is whatever the
      rest of the calls could add. */
  lemma EdgeCellParts<V>(t: Tree<V>, n: nat, ser: Serializer<V>)
    requires WellFormed(t, n) && n < INT_MAX
    requires |LabelBits(t.path, n)| <= MAX_BITS
    ensures EdgeCell(t, n, ser)
         == Join(Cell(LabelBits(t.path, n), []), Added(Cell(LabelBits(t.path, n), []), NodeCalls(t, n - |t.path|, ser)))
  {
    var calls, head := LabelCalls(t.path, n), Cell(LabelBits(t.path, n), []);
    LabelContent(t.path, n);
    RunFits(EMPTY, calls);
    assert Join(EMPTY, head) == head;
    RunConcat(EMPTY, calls, NodeCalls(t, n - |t.path|, ser));
    NothingLostIffFits(head, NodeCalls(t, n - |t.path|, ser));
  }

  lemma EdgeReadsLabel<V>(t: Tree<V>, n: nat, ser: Serializer<V>)
    requires WellFormed(t, n) && n < INT_MAX
    requires |LabelBits(t.path, n)| <= MAX_BITS
    ensures ReadLabel(EdgeCell(t, n, ser).bits, n)
         == Some((t.path, Added(Cell(LabelBits(t.path, n), []), NodeCalls(t, n - |t.path|, ser)).bits))
  {
    EdgeCellParts(t, n, ser);
    LabelRoundTrip(t.path, n, Added(Cell(LabelBits(t.path, n), []), NodeCalls(t, n - |t.path|, ser)).bits);
  }

  lemma OverlongLabelUnreadable<V>(t: Tree<V>, n: nat, ser: Serializer<V>)
    requires WellFormed(t, n) && n < INT_MAX
    requires |LabelBits(t.path, n)| > MAX_BITS
    ensures ReadEdge(EdgeCell(t, n, ser), n) == None
  {
    hide Run, RunCall, LabelBits, LabelCalls, Content, ReadLabel;
    var calls := LabelCalls(t.path, n);
    LongLabelFillsCell(t.path, n);
    RunConcat(EMPTY, calls, NodeCalls(t, n - |t.path|, ser));
    RunExtends(Run(EMPTY, calls), NodeCalls(t, n - |t.path|, ser));
    assert EdgeCell(t, n, ser).bits == LabelBits(t.path, n)[..MAX_BITS];
    TruncatedLabelUnreadable(t.path, n);
  }

  lemma {:induction false} BitCallsFill(c: Cell, b: Bits)
    requires |c.bits| <= MAX_BITS && |c.bits| + |b| > MAX_BITS
    ensures Run(c, BitCalls(b)) == Cell((c.bits + b)[..MAX_BITS], c.refs)
    decreases b
  {
    var first := BitsCall([b[0]]);
    assert first[1..] == [];
    assert BitCalls(b) == [first] + BitCalls(b[1..]);
    if |c.bits| < MAX_BITS {
      var c' := Cell(c.bits + [b[0]], c.refs);
      assert RunCall(c, first) == c';
      assert c'.bits + b[1..] == c.bits + b;
      BitCallsFill(c', b[1..]);
    } else {
      assert RunCall(c, first) == c;
      assert (c.bits + b)[..MAX_BITS] == c.bits;
      BitCallsStay(c, b[1..]);
    }
  }

  lemma {:induction false} BitCallsStay(c: Cell, b: Bits)
    requires |c.bits| == MAX_BITS
    ensures Run(c, BitCalls(b)) == c
  {
    if b == [] {
    } else {
      assert BitCalls(b) == [BitsCall([b[0]])] + BitCalls(b[1..]);
      BitCallsStay(c, b[1..]);
    }
  }

  /** A label that overflows is a long one, and is cut off at 1023 bits. */
  lemma LongLabelFillsCell(src: Bits, m: nat)
    requires |src| <= m < INT_MAX && |LabelBits(src, m)| > MAX_BITS
    ensures Run(EMPTY, LabelCalls(src, m)) == Cell(LabelBits(src, m)[..MAX_BITS], [])
  {
    hide Run, RunCall, BitCalls, ToBits, Content, FieldWidth;
    FieldWidthOfInt(m);
    LabelContent(src, m);
    assert KindOf(src, m) == Long;
    var k := FieldWidth(m);
    var tag, count := BitCalls([true, false]), LongCall(|src|, k);
    var head := Cell([true, false] + ToBits(|src|, k), []);
    BitCallsContent([true, false]);
    ContentOfOne(count);
    ContentConcat(tag, [count]);
    RunFits(EMPTY, tag + [count]);
    assert Join(EMPTY, head) == head;
    assert tag + ([count] + BitCalls(src)) == (tag + [count]) + BitCalls(src);
    RunConcat(EMPTY, tag + [count], BitCalls(src));
    BitCallsFill(head, src);
    ConcatAssociative([true, false], ToBits(|src|, k), src);
  }

  lemma TwoRefs(head: Cell, left: Cell, right: Cell)
    requires |head.bits| <= MAX_BITS && head.refs == []
    ensures Run(head, [RefCall(left), RefCall(right)]) == Cell(head.bits, [left, right])
  {
    ContentCons(RefCall(left), [RefCall(right)]);
    ContentOfOne(RefCall(right));
    assert [RefCall(left), RefCall(right)] == [RefCall(left)] + [RefCall(right)];
    RunFits(head, [RefCall(left), RefCall(right)]);
    assert head.bits + [] == head.bits;
  }

  /** A fork whose label fits is written whole. */
  lemma ForkCell<V>(t: Tree<V>, n: nat, ser: Serializer<V>)
    requires WellFormed(t, n) && n < INT_MAX && t.node.Fork?
    requires |LabelBits(t.path, n)| <= MAX_BITS
    ensures var m := n - |t.path| - 1;
            EdgeCell(t, n, ser)
              == Cell(LabelBits(t.path, n), [EdgeCell(t.node.left, m, ser), EdgeCell(t.node.right, m, ser)])
  {
    hide Run, RunCall, Content, LabelBits, LabelCalls, CallContent;
    var m := n - |t.path|;
    var left, right := EdgeCell(t.node.left, m - 1, ser), EdgeCell(t.node.right, m - 1, ser);
    var calls, head := LabelCalls(t.path, n), Cell(LabelBits(t.path, n), []);
    LabelContent(t.path, n);
    RunFits(EMPTY, calls);
    assert Join(EMPTY, head) == head;
    assert EdgeCalls(t, n, ser) == calls + [RefCall(left), RefCall(right)];
    RunConcat(EMPTY, calls, [RefCall(left), RefCall(right)]);
    TwoRefs(head, left, right);
  }

  lemma LeafRoundTrip<V>(t: Tree<V>, n: nat, ser: Serializer<V>)
    requires WellFormed(t, n) && n < INT_MAX && t.node.Leaf?
    requires |LabelBits(t.path, n)| <= MAX_BITS
    ensures ReadEdge(EdgeCell(t, n, ser), n) == Some(Payloads(t, ser)) <==> Fits(t, n, ser)
  {
    var head := Cell(LabelBits(t.path, n), []);
    EdgeCellParts(t, n, ser);
    EdgeReadsLabel(t, n, ser);
    NothingLostIffFits(head, ser(t.node.value));
  }

  lemma ReadFork(path: Bits, n: nat, left: Cell, right: Cell)
    requires |path| < n
    ensures ReadEdge(Cell(LabelBits(path, n), [left, right]), n)
         == BothSides(path, ReadEdge(left, n - |path| - 1), ReadEdge(right, n - |path| - 1))
  {
    LabelRoundTrip(path, n, []);
    assert LabelBits(path, n) + [] == LabelBits(path, n);
  }

  lemma ReadForkAs(path: Bits, n: nat, left: Cell, right: Cell, l: Tree<Cell>, r: Tree<Cell>)
    requires |path| < n
    ensures ReadEdge(Cell(LabelBits(path, n), [left, right]), n) == Some(Edge(path, Fork(l, r)))
       <==> ReadEdge(left, n - |path| - 1) == Some(l) && ReadEdge(right, n - |path| - 1) == Some(r)
  {
    ReadFork(path, n, left, right);
  }

  lemma PayloadsOfFork<V>(t: Tree<V>, n: nat, ser: Serializer<V>)
    requires WellFormed(t, n) && t.node.Fork? && |LabelBits(t.path, n)| <= MAX_BITS
    ensures Payloads(t, ser) == Edge(t.path, Fork(Payloads(t.node.left, ser), Payloads(t.node.right, ser)))
    ensures var m := n - |t.path| - 1;
            Fits(t, n, ser) <==> Fits(t.node.left, m, ser) && Fits(t.node.right, m, ser)
  {
    hide EdgeCell, LabelBits;
  }

  /** Reading the written cells gives the same trie, with every value's payload,
      if and only if every cell fits. */
  lemma {:induction false} TrieRoundTrip<V>(t: Tree<V>, n: nat, ser: Serializer<V>)
    requires WellFormed(t, n) && n < INT_MAX
    ensures ReadEdge(EdgeCell(t, n, ser), n) == Some(Payloads(t, ser)) <==> Fits(t, n, ser)
    decreases t, 1
  {
    if |LabelBits(t.path, n)| > MAX_BITS {
      OverlongLabelUnreadable(t, n, ser);
    } else if t.node.Leaf? {
      LeafRoundTrip(t, n, ser);
    } else {
      ForkRoundTrip(t, n, ser);
    }
  }

  lemma {:induction false} ForkRoundTrip<V>(t: Tree<V>, n: nat, ser: Serializer<V>)
    requires WellFormed(t, n) && n < INT_MAX && t.node.Fork?
    requires |LabelBits(t.path, n)| <= MAX_BITS
    ensures ReadEdge(EdgeCell(t, n, ser), n) == Some(Payloads(t, ser)) <==> Fits(t, n, ser)
    decreases t, 0
  {
    hide ReadEdge, EdgeCell, Payloads, Fits, LabelBits;
    var l, r, m := t.node.left, t.node.right, n - |t.path| - 1;
    ForkCell(t, n, ser);
    PayloadsOfFork(t, n, ser);
    ReadForkAs(t.path, n, EdgeCell(l, m, ser), EdgeCell(r, m, ser), Payloads(l, ser), Payloads(r, ser));
    TrieRoundTrip(l, m, ser);
    TrieRoundTrip(r, m, ser);
  }

  lemma BelowEntry<V>(prefix: Bits, m: map<Bits, V>, k: Bits)
    ensures k in Below(prefix, m) <==> prefix <= k && k[|prefix|..] in m
    ensures k in Below(prefix, m) ==> Below(prefix, m)[k] == m[k[|prefix|..]]
  {
    if prefix <= k {
      assert k == prefix + k[|prefix|..];
    }
    forall x | x in m ensures prefix <= prefix + x && (prefix + x)[|prefix|..] == x {
    }
  }

  lemma ForkEntries<V>(path: Bits, l: map<Bits, V>, r: map<Bits, V>, b: bool, k: Bits)
    ensures var all := Below(path + [false], l) + Below(path + [true], r);
            var side := if b then r else l;
            && (path + [b] + k in all <==> k in side)
            && (k in side ==> all[path + [b] + k] == side[k])
  {
    var key := path + [b] + k;
    BelowEntry(path + [false], l, key);
    BelowEntry(path + [true], r, key);
    assert key[|path|] == b;
    assert path + [b] <= key && !(path + [!b] <= key);
    assert key[|path| + 1..] == k;
  }

  /** The entries are exactly what lookups find. */
  lemma {:induction false} EntriesAreLookups<V>(t: Tree<V>, k: Bits)
    ensures k in Entries(t) <==> Lookup(t, k).Some?
    ensures k in Entries(t) ==> Lookup(t, k) == Some(Entries(t)[k])
    decreases t
  {
    match t.node
    case Leaf(_) =>
    case Fork(l, r) =>
      if t.path < k {
        var b, rest := k[|t.path|], k[|t.path| + 1..];
        assert k == t.path + [b] + rest;
        LookupFork(t, b, rest);
        EntriesAreLookups(if b then r else l, rest);
        ForkEntries(t.path, Entries(l), Entries(r), b, rest);
      } else {
        BelowEntry(t.path + [false], Entries(l), k);
        BelowEntry(t.path + [true], Entries(r), k);
      }
  }

  lemma EntriesDetermineTrie<V(!new)>(s: Tree<V>, t: Tree<V>, n: nat)
    requires WellFormed(s, n) && WellFormed(t, n)
    requires Entries(s) == Entries(t)
    ensures s == t
  {
    forall k: Bits | |k| == n ensures Lookup(s, k) == Lookup(t, k) {
      EntriesAreLookups(s, k);
      EntriesAreLookups(t, k);
    }
    TrieUnique(s, t, n);
  }

  lemma {:induction false} PayloadsWellFormed<V>(t: Tree<V>, n: nat, ser: Serializer<V>)
    requires WellFormed(t, n)
    ensures WellFormed(Payloads(t, ser), n)
    decreases t
  {
    if t.node.Fork? {
      PayloadsWellFormed(t.node.left, n - |t.path| - 1, ser);
      PayloadsWellFormed(t.node.right, n - |t.path| - 1, ser);
    }
  }

  lemma MapRoundTrip<V>(t: Tree<V>, n: nat, ser: Serializer<V>)
    requires WellFormed(t, n) && n < INT_MAX
    ensures ReadMap(EdgeCell(t, n, ser), n) == Some(Entries(Payloads(t, ser))) <==> Fits(t, n, ser)
  {
    TrieRoundTrip(t, n, ser);
    PayloadsWellFormed(t, n, ser);
    var read := ReadEdge(EdgeCell(t, n, ser), n);
    if read.Some? && Entries(read.value) == Entries(Payloads(t, ser)) {
      EntriesDetermineTrie(read.value, Payloads(t, ser), n);
    }
  }

  lemma {:induction false} PayloadLookup<V>(t: Tree<V>, ser: Serializer<V>, k: Bits)
    ensures Lookup(Payloads(t, ser), k)
         == (match Lookup(t, k) case None => None case Some(v) => Some(Content(ser(v))))
    decreases t
  {
    match t.node
    case Leaf(_) =>
    case Fork(l, r) =>
      if t.path < k {
        PayloadLookup(l, ser, k[|t.path|..][1..]);
        PayloadLookup(r, ser, k[|t.path|..][1..]);
      }
  }

  // ----- the whole serializer

  /** m holds the keys of the dictionary, each as the n-bit code of its 64-bit
      pattern and with the payload of its value, and nothing else. */
  ghost predicate IsImage<V(!new)>(m: map<Bits, Cell>, src: IntDict<V>, n: nat, ser: Serializer<V>) {
    && (forall i :: 0 <= i < |src| ==> ToBits(src[i].0 % Pow2(64), n) in m)
    && (forall i :: 0 <= i < |src| ==> m[ToBits(src[i].0 % Pow2(64), n)] == Content(ser(src[i].1)))
    && (forall k :: k in m ==> exists i :: 0 <= i < |src| && ToBits(src[i].0 % Pow2(64), n) == k)
  }

  ghost predicate ReadsBack<V(!new)>(c: Cell, src: IntDict<V>, n: nat, ser: Serializer<V>) {
    ReadMap(c, n).Some? && IsImage(ReadMap(c, n).value, src, n, ser)
  }

  lemma EntriesAreImage<V(!new)>(t: Tree<V>, src: IntDict<V>, n: nat, ser: Serializer<V>)
    requires AgreesWithInts(t, src, n)
    ensures IsImage(Entries(Payloads(t, ser)), src, n, ser)
  {
    var m := Entries(Payloads(t, ser));
    forall i | 0 <= i < |src|
      ensures ToBits(src[i].0 % Pow2(64), n) in m && m[ToBits(src[i].0 % Pow2(64), n)] == Content(ser(src[i].1))
    {
      EntriesAreLookups(Payloads(t, ser), ToBits(src[i].0 % Pow2(64), n));
      PayloadLookup(t, ser, ToBits(src[i].0 % Pow2(64), n));
    }
    forall k | k in m ensures exists i :: 0 <= i < |src| && ToBits(src[i].0 % Pow2(64), n) == k {
      EntriesAreLookups(Payloads(t, ser), k);
      PayloadLookup(t, ser, k);
      assert Lookup(t, k).Some?;
    }
  }

  lemma ImageUnique<V(!new)>(a: map<Bits, Cell>, b: map<Bits, Cell>, src: IntDict<V>, n: nat, ser: Serializer<V>)
    requires IsImage(a, src, n, ser) && IsImage(b, src, n, ser)
    ensures a == b
  {
    assert forall k :: k in a <==> k in b;
    assert forall k :: k in a ==> a[k] == b[k];
  }

  /** The hashmap round trip: the cell tree reads back as exactly the input
      dictionary if and only if no cell of the trie overflows. */
  lemma HashmapRoundTrip<V(!new)>(t: Tree<V>, src: IntDict<V>, n: nat, ser: Serializer<V>)
    requires WellFormed(t, n) && AgreesWithInts(t, src, n) && n < INT_MAX
    ensures ReadsBack(EdgeCell(t, n, ser), src, n, ser) <==> Fits(t, n, ser)
  {
    MapRoundTrip(t, n, ser);
    EntriesAreImage(t, src, n, ser);
    var read := ReadMap(EdgeCell(t, n, ser), n);
    if read.Some? && IsImage(read.value, src, n, ser) {
      ImageUnique(read.value, Entries(Payloads(t, ser)), src, n, ser);
    }
  }

  /** The payload that the map read has under a number. */
  ghost predicate HoldsNumber(m: map<Bits, Cell>, number: int, payload: Cell) {
    exists k :: k in m && FromBits(k) == number && m[k] == payload
  }

  /** The same in numbers: each key read is the number of an entry and carries
      that entry's payload, and every entry is read. */
  lemma ReadsBackInNumbers<V(!new)>(c: Cell, src: IntDict<V>, n: nat, ser: Serializer<V>)
    requires AllKeysFit(src, n) && ReadsBack(c, src, n, ser)
    ensures forall i :: 0 <= i < |src| ==>
              HoldsNumber(ReadMap(c, n).value, src[i].0 % Pow2(64), Content(ser(src[i].1)))
    ensures forall k :: k in ReadMap(c, n).value ==>
              exists i :: 0 <= i < |src| && FromBits(k) == src[i].0 % Pow2(64)
                       && ReadMap(c, n).value[k] == Content(ser(src[i].1))
  {
    hide FromBits, ToBits, Content, ReadMap, Pow2;
    var m := ReadMap(c, n).value;
    forall i | 0 <= i < |src| ensures FromBits(ToBits(src[i].0 % Pow2(64), n)) == src[i].0 % Pow2(64) {
      PaddedReadsBack(src[i].0, n);
    }
    forall i | 0 <= i < |src| ensures HoldsNumber(m, src[i].0 % Pow2(64), Content(ser(src[i].1))) {
      assert ToBits(src[i].0 % Pow2(64), n) in m;
    }
    forall k | k in m
      ensures exists i :: 0 <= i < |src| && FromBits(k) == src[i].0 % Pow2(64) && m[k] == Content(ser(src[i].1))
    {
      var i :| 0 <= i < |src| && ToBits(src[i].0 % Pow2(64), n) == k;
      assert FromBits(k) == src[i].0 % Pow2(64);
    }
  }

  method Serialize<V(!new)>(src: IntDict<V>, n: nat, ser: Serializer<V>)
    returns (r: Result<Cell>, ghost t: Option<Tree<V>>)
    requires DistinctIntKeys(src) && AllKeysFit(src, n) && n < INT_MAX
    ensures t.Some? <==> src != []
    ensures t.Some? ==> WellFormed(t.value, n) && AgreesWithInts(t.value, src, n)
    ensures r.Success? <==> t.Some? && Depth(EdgeCell(t.value, n, ser)) <= MAX_DEPTH
    ensures r.Success? ==> r.value == EdgeCell(t.value, n, ser)
    ensures r.Success? ==> (ReadsBack(r.value, src, n, ser) <==> Fits(t.value, n, ser))
  {
    t := None;
    var tree := BuildTree(src, n);
    if tree.Failure? {
      return Failure(tree.error), t;
    }
    t := Some(tree.value);
    var dest := new CellBuilder.Begin();
    r := WriteEdgeCell(tree.value, n, ser, dest);
    HashmapRoundTrip(tree.value, src, n, ser);
  }

  lemma LeafDepth<V>(t: Tree<V>, n: nat, ser: Serializer<V>, d: nat)
    requires WellFormed(t, n) && n < INT_MAX && t.node.Leaf? && Fits(t, n, ser)
    requires MaxDepth(Content(ser(t.node.value)).refs) < d
    ensures Depth(EdgeCell(t, n, ser)) <= d
  {
    hide Run, Content, LabelBits;
    var head := Cell(LabelBits(t.path, n), []);
    EdgeCellParts(t, n, ser);
    NothingLostIffFits(head, ser(t.node.value));
    assert EdgeCell(t, n, ser).refs == [] + Content(ser(t.node.value)).refs;
  }

  lemma ForkCellDepth<V>(t: Tree<V>, n: nat, ser: Serializer<V>)
    requires WellFormed(t, n) && n < INT_MAX && t.node.Fork?
    ensures var m := n - |t.path| - 1;
            var l, r := Depth(EdgeCell(t.node.left, m, ser)), Depth(EdgeCell(t.node.right, m, ser));
            Depth(EdgeCell(t, n, ser)) == 1 + if l < r then r else l
  {
    hide Run, Depth;
    var m := n - |t.path| - 1;
    ForkRefs(t, n, ser);
    var c := EdgeCell(t, n, ser);
    assert c == Cell(c.bits, [EdgeCell(t.node.left, m, ser), EdgeCell(t.node.right, m, ser)]);
    DepthOfTwo(c.bits, EdgeCell(t.node.left, m, ser), EdgeCell(t.node.right, m, ser));
  }

  /** The cells are at most as deep as the trie and its deepest payload together. */
  lemma {:induction false} CellDepthBound<V(!new)>(t: Tree<V>, n: nat, ser: Serializer<V>, d: nat)
    requires WellFormed(t, n) && n < INT_MAX && Fits(t, n, ser)
    requires forall k: Bits, v: V :: Lookup(t, k) == Some(v) ==> MaxDepth(Content(ser(v)).refs) < d
    ensures Depth(EdgeCell(t, n, ser)) <= ForkDepth(t) + d
    decreases t
  {
    hide EdgeCell, Content, MaxDepth, Depth, LabelBits;
    match t.node
    case Leaf(v) =>
      assert Lookup(t, t.path) == Some(v);
      LeafDepth(t, n, ser, d);
    case Fork(l, r) =>
      var m := n - |t.path| - 1;
      forall k: Bits, v: V
        ensures Lookup(l, k) == Some(v) ==> MaxDepth(Content(ser(v)).refs) < d
        ensures Lookup(r, k) == Some(v) ==> MaxDepth(Content(ser(v)).refs) < d
      {
        LookupFork(t, false, k);
        LookupFork(t, true, k);
      }
      CellDepthBound(l, m, ser, d);
      CellDepthBound(r, m, ser, d);
      ForkCellDepth(t, n, ser);
  }

  /** What is written for the dictionary of the one key 0 at width 0: the only
      key is still padded to one digit, and that digit is the label. */
  function ZeroWidthCell(calls: seq<Call>): Cell {
    Run(EMPTY, LabelCalls(Padded(0, 0), 0) + calls)
  }

  lemma ZeroWidthLabel(value: Bits)
    ensures Padded(0, 0) == [false] && |LabelBits(Padded(0, 0), 0)| == 3
    ensures ReadLabel(LabelBits(Padded(0, 0), 0) + value, 0) == Some(([], [false] + value))
  {
    var bits := LabelBits([false], 0) + value;
    assert KindOf([false], 0) == Long;
    assert LabelBits([false], 0) == [true, false] + (ToBits(1, 0) + [false]);
    assert bits[2..] == [false] + value;
    assert FromBits(bits[2..][..0]) == 0;
    assert ReadUpTo(bits[2..], 0) == Some((0, [false] + value));
  }

  /** At width 0 the round trip fails although 0 < 2^0 and every value is written
      whole: on reading the digit lands in front of the value. (PaddedKey says
      which keys fit.) */
  lemma ZeroWidthMisreads(calls: seq<Call>)
    requires |Content(calls).bits| + 3 <= MAX_BITS && |Content(calls).refs| <= MAX_REFS
    ensures !KeyFits(0, 0)
    ensures var payload := Content(calls);
            && ReadMap(ZeroWidthCell(calls), 0) == Some(map[[] := Cell([false] + payload.bits, payload.refs)])
            && ReadMap(ZeroWidthCell(calls), 0) != Some(map[[] := payload])
  {
    hide Run, Content, ReadLabel, LabelBits, LabelCalls;
    var payload, head := Content(calls), LabelBits(Padded(0, 0), 0);
    ZeroWidthLabel(payload.bits);
    LabelContent(Padded(0, 0), 0);
    ContentConcat(LabelCalls(Padded(0, 0), 0), calls);
    RunFits(EMPTY, LabelCalls(Padded(0, 0), 0) + calls);
    assert ZeroWidthCell(calls) == Cell(head + payload.bits, payload.refs);
    var read := Cell([false] + payload.bits, payload.refs);
    assert ReadEdge(ZeroWidthCell(calls), 0) == Some(Edge([], Leaf(read)));
    assert |read.bits| != |payload.bits|;
    var key: Bits := [];
    assert map[key := read][key] != map[key := payload][key];
  }

  /** What a value may take so that it fits in a cell with any label of an n-bit
      key. */
  predicate WithinBudget(calls: seq<Call>, n: nat) {
    |Content(calls).bits| + n + 2 + FieldWidth(n) <= MAX_BITS && |Content(calls).refs| <= MAX_REFS
  }

  lemma FieldWidthMonotone(a: nat, b: nat)
    requires a <= b
    ensures FieldWidth(a) <= FieldWidth(b)
  {
    CeilLog2IsBitLength(a);
    CeilLog2IsBitLength(b);
    BitLengthMonotone(a, b);
  }

  /** When every value is within budget, no store is dropped anywhere. */
  lemma {:induction false} BudgetSuffices<V(!new)>(t: Tree<V>, m: nat, n: nat, ser: Serializer<V>)
    requires WellFormed(t, m) && m <= n < INT_MAX && n + 2 + FieldWidth(n) <= MAX_BITS
    requires forall k: Bits, v: V :: Lookup(t, k) == Some(v) ==> WithinBudget(ser(v), n)
    ensures Fits(t, m, ser)
    decreases t
  {
    hide Content, LabelBits, FieldWidth;
    LabelBound(t.path, m);
    FieldWidthMonotone(m, n);
    match t.node
    case Leaf(v) =>
      assert Lookup(t, t.path) == Some(v);
    case Fork(l, r) =>
      forall k: Bits, v: V
        ensures Lookup(l, k) == Some(v) ==> WithinBudget(ser(v), n)
        ensures Lookup(r, k) == Some(v) ==> WithinBudget(ser(v), n)
      {
        LookupFork(t, false, k);
        LookupFork(t, true, k);
      }
      BudgetSuffices(l, m - |t.path| - 1, n, ser);
      BudgetSuffices(r, m - |t.path| - 1, n, ser);
  }
}
