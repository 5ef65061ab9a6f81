/** Edge labels of the serialized dictionary (SerializeDict), and a reader of
    them written from the HmLabel rules hml_short, hml_long and hml_same. */
module HashmapLabels {
  import opened BitStrings
  import opened Cells
  import opened Builders
  import opened Wrappers

  datatype Kind = Short | Long | Same

  /** keyLength is a C# int, and keyLength + 1 must not overflow. */
  const INT_MAX: nat := 0x7FFF_FFFF

  predicate Uniform(b: Bits) {
    forall i :: 0 <= i < |b| ==> b[i] == b[0]
  }

  function FieldWidth(m: nat): nat {
    CeilLog2(m + 1)
  }

  function LabelShortLength(src: Bits): nat {
    1 + |src| + 1 + |src|
  }

  function LabelLongLength(src: Bits, m: nat): nat {
    1 + 1 + FieldWidth(m) + |src|
  }

  function LabelSameLength(m: nat): nat {
    1 + 1 + 1 + FieldWidth(m)
  }

  function Length(kind: Kind, src: Bits, m: nat): nat {
    match kind
    case Short => LabelShortLength(src)
    case Long => LabelLongLength(src, m)
    case Same => LabelSameLength(m)
  }

  predicate Applicable(kind: Kind, src: Bits) {
    kind == Same ==> Uniform(src)
  }

  /** The choice in closed form, with k the width of the length field. */
  function KindOf(src: Bits, m: nat): Kind {
    var l, k := |src|, FieldWidth(m);
    if Uniform(src) && l > 1 && k < 2 * l - 1 then Same
    else if k < l then Long
    else Short
  }

  method IsSame(src: Bits) returns (same: bool)
    ensures same <==> Uniform(src)
  {
    if |src| == 0 || |src| == 1 {
      return true;
    }
    for i := 1 to |src|
      invariant forall j :: 0 <= j < i ==> src[j] == src[0]
    {
      if src[i] != src[0] {
        return false;
      }
    }
    return true;
  }

  method DetectLabelType(src: Bits, m: nat) returns (kind: Kind)
    ensures kind == KindOf(src, m)
  {
    kind := Short;
    var kindLength := LabelShortLength(src);
    var longLength := LabelLongLength(src, m);
    if longLength < kindLength {
      kindLength := longLength;
      kind := Long;
    }
    var same := IsSame(src);
    if same {
      var sameLength := LabelSameLength(m);
      if sameLength < kindLength {
        kindLength := sameLength;
        kind := Same;
      }
    }
  }

  /** The order in which the kinds are tried. */
  function Rank(kind: Kind): nat {
    match kind
    case Short => 0
    case Long => 1
    case Same => 2
  }

  /** The chosen kind applies, no applicable kind is shorter, and of equally short
      ones the first tried is chosen. */
  lemma KindIsShortest(src: Bits, m: nat, other: Kind)
    requires |src| <= m
    requires Applicable(other, src)
    ensures Applicable(KindOf(src, m), src)
    ensures Length(KindOf(src, m), src, m) <= Length(other, src, m)
    ensures Length(KindOf(src, m), src, m) == Length(other, src, m) ==> Rank(KindOf(src, m)) <= Rank(other)
    ensures KindOf(src, m) == Same ==> src != []
  {
    if |src| == 1 {
      CeilLog2Least(m + 1);
      assert FieldWidth(m) >= 1;
    }
  }

  // ----- writing

  function Repeat(b: bool, n: nat): (r: Bits)
    ensures |r| == n && forall i :: 0 <= i < n ==> r[i] == b
  {
    if n == 0 then [] else [b] + Repeat(b, n - 1)
  }

  function LabelBits(src: Bits, m: nat): Bits {
    match KindOf(src, m)
    case Short => [false] + (Repeat(true, |src|) + ([false] + src))
    case Long => [true, false] + (ToBits(|src|, FieldWidth(m)) + src)
    case Same => [true, true, src[0]] + ToBits(|src|, FieldWidth(m))
  }

  function LabelCalls(src: Bits, m: nat): seq<Call> {
    match KindOf(src, m)
    case Short => BitCalls([false] + (Repeat(true, |src|) + ([false] + src)))
    case Long => BitCalls([true, false]) + ([LongCall(|src|, FieldWidth(m))] + BitCalls(src))
    case Same => BitCalls([true, true, src[0]]) + [LongCall(|src|, FieldWidth(m))]
  }

  lemma FieldWidthOfInt(m: nat)
    requires m < INT_MAX
    ensures FieldWidth(m) <= 31
  {
    CeilLog2IsBitLength(m);
    BitLengthMonotone(m, INT_MAX);
    Pow2Values();
    Pow2Add(31, 1);
    Pow2Add(30, 1);
    BitLengthUnique(INT_MAX, 31);
  }

  /** The label written is exactly LabelBits, and has the predicted length. */
  lemma LabelContent(src: Bits, m: nat)
    requires m < INT_MAX
    ensures Content(LabelCalls(src, m)) == Cell(LabelBits(src, m), [])
    ensures |LabelBits(src, m)| == Length(KindOf(src, m), src, m)
  {
    FieldWidthOfInt(m);
    var count := LongCall(|src|, FieldWidth(m));
    match KindOf(src, m)
    case Short =>
      BitCallsContent([false] + (Repeat(true, |src|) + ([false] + src)));
    case Long =>
      BitCallsContent([true, false]);
      BitCallsContent(src);
      ContentCons(count, BitCalls(src));
      ContentConcat(BitCalls([true, false]), [count] + BitCalls(src));
    case Same =>
      BitCallsContent([true, true, src[0]]);
      ContentOfOne(count);
      ContentConcat(BitCalls([true, true, src[0]]), [count]);
  }

  /** Writing single bits one after the other is one run of BitCalls. */
  method WriteBits(src: Bits, to: CellBuilder)
    modifies to
    ensures to.Now() == Run(old(to.Now()), BitCalls(src))
  {
    for i := 0 to |src|
      invariant Run(to.Now(), BitCalls(src[i..])) == Run(old(to.Now()), BitCalls(src))
    {
      assert src[i..][1..] == src[i + 1..];
      assert BitCalls(src[i..])[1..] == BitCalls(src[i + 1..]);
      to.StoreBool(src[i]);
    }
  }

  method WriteLabelShort(src: Bits, to: CellBuilder)
    modifies to
    ensures to.Now() == Run(old(to.Now()), BitCalls([false] + (Repeat(true, |src|) + ([false] + src))))
  {
    ghost var start := to.Now();
    to.StoreBool(false);
    BitCallsConcat([false], Repeat(true, |src|) + ([false] + src));
    RunOne(start, false);
    RunConcat(start, BitCalls([false]), BitCalls(Repeat(true, |src|) + ([false] + src)));
    ghost var tagged := to.Now();
    for i := 0 to |src|
      invariant Run(to.Now(), BitCalls(Repeat(true, |src| - i))) == Run(tagged, BitCalls(Repeat(true, |src|)))
    {
      assert Repeat(true, |src| - i)[1..] == Repeat(true, |src| - i - 1);
      assert BitCalls(Repeat(true, |src| - i))[1..] == BitCalls(Repeat(true, |src| - i - 1));
      to.StoreBool(true);
    }
    BitCallsConcat(Repeat(true, |src|), [false] + src);
    RunConcat(tagged, BitCalls(Repeat(true, |src|)), BitCalls([false] + src));
    ghost var counted := to.Now();
    to.StoreBool(false);
    RunOne(counted, false);
    BitCallsConcat([false], src);
    RunConcat(counted, BitCalls([false]), BitCalls(src));
    WriteBits(src, to);
  }

  lemma RunOne(c: Cell, b: bool)
    ensures Run(c, BitCalls([b])) == RunCall(c, BitsCall([b]))
  {
    assert BitCalls([b]) == [BitsCall([b])];
    RunCons(c, BitsCall([b]), []);
  }

  method WriteLabelLong(src: Bits, m: nat, to: CellBuilder)
    modifies to
    ensures to.Now() == Run(old(to.Now()), BitCalls([true, false]) + ([LongCall(|src|, FieldWidth(m))] + BitCalls(src)))
  {
    ghost var start := to.Now();
    var length := FieldWidth(m);
    WriteBits([true, false], to);
    RunConcat(start, BitCalls([true, false]), [LongCall(|src|, length)] + BitCalls(src));
    to.Store(|src|, length);
    assert ([LongCall(|src|, length)] + BitCalls(src))[1..] == BitCalls(src);
    WriteBits(src, to);
  }

  method WriteLabelSame(value: bool, count: nat, m: nat, to: CellBuilder)
    modifies to
    ensures to.Now() == Run(old(to.Now()), BitCalls([true, true, value]) + [LongCall(count, FieldWidth(m))])
  {
    ghost var start := to.Now();
    WriteBits([true, true, value], to);
    RunConcat(start, BitCalls([true, true, value]), [LongCall(count, FieldWidth(m))]);
    to.Store(count, FieldWidth(m));
    assert [LongCall(count, FieldWidth(m))][1..] == [];
  }

  method WriteLabel(src: Bits, m: nat, to: CellBuilder)
    modifies to
    ensures to.Now() == Run(old(to.Now()), LabelCalls(src, m))
  {
    var kind := DetectLabelType(src, m);
    match kind
    case Short => WriteLabelShort(src, to);
    case Long => WriteLabelLong(src, m, to);
    case Same => WriteLabelSame(src[0], |src|, m, to);
  }

  // ----- reading

  /** Unary: a run of ones ended by a zero. */
  function ReadUnary(bits: Bits): Option<(nat, Bits)> {
    if bits == [] then None
    else if !bits[0] then Some((0, bits[1..]))
    else match ReadUnary(bits[1..])
      case None => None
      case Some((n, rest)) => Some((n + 1, rest))
  }

  /** (#<= m): a number in as many bits as m has. */
  function ReadUpTo(bits: Bits, m: nat): Option<(nat, Bits)> {
    var k := BitLength(m);
    if |bits| < k then None
    else
      var n := FromBits(bits[..k]);
      if n > m then None else Some((n, bits[k..]))
  }

  function TakeBits(bits: Bits, n: nat): Option<(Bits, Bits)> {
    if |bits| < n then None else Some((bits[..n], bits[n..]))
  }

  /** HmLabel ~l m: the label and what follows it. */
  function ReadLabel(bits: Bits, m: nat): (r: Option<(Bits, Bits)>)
    ensures r.Some? ==> |r.value.0| <= m
  {
    if bits == [] then None
    else if !bits[0] then
      match ReadUnary(bits[1..])
      case None => None
      case Some((n, rest)) => if n > m then None else TakeBits(rest, n)
    else if |bits| < 2 then None
    else if !bits[1] then
      match ReadUpTo(bits[2..], m)
      case None => None
      case Some((n, rest)) => TakeBits(rest, n)
    else if |bits| < 3 then None
    else
      match ReadUpTo(bits[3..], m)
      case None => None
      case Some((n, rest)) => Some((Repeat(bits[2], n), rest))
  }

  lemma {:induction false} UnaryRoundTrip(n: nat, rest: Bits)
    ensures ReadUnary(Repeat(true, n) + ([false] + rest)) == Some((n, rest))
  {
    var all := Repeat(true, n) + ([false] + rest);
    if n == 0 {
      assert all == [false] + rest;
      assert all[1..] == rest;
    } else {
      assert all[1..] == Repeat(true, n - 1) + ([false] + rest);
      UnaryRoundTrip(n - 1, rest);
    }
  }

  lemma CountRoundTrip(n: nat, m: nat, rest: Bits)
    requires n <= m
    ensures ReadUpTo(ToBits(n, FieldWidth(m)) + rest, m) == Some((n, rest))
  {
    var code := ToBits(n, FieldWidth(m));
    CeilLog2IsBitLength(m);
    BitLengthBounds(m);
    SmallRoundTrip(n, BitLength(m));
    assert (code + rest)[..BitLength(m)] == code;
    assert (code + rest)[BitLength(m)..] == rest;
  }

  lemma TakeRoundTrip(a: Bits, rest: Bits)
    ensures TakeBits(a + rest, |a|) == Some((a, rest))
  {
    assert (a + rest)[..|a|] == a && (a + rest)[|a|..] == rest;
  }

  lemma ReadShort(src: Bits, m: nat, rest: Bits)
    requires |src| <= m
    ensures ReadLabel([false] + (Repeat(true, |src|) + ([false] + (src + rest))), m) == Some((src, rest))
  {
    var body := Repeat(true, |src|) + ([false] + (src + rest));
    assert ([false] + body)[1..] == body;
    UnaryRoundTrip(|src|, src + rest);
    TakeRoundTrip(src, rest);
  }

  lemma ReadLong(n: nat, m: nat, rest: Bits)
    requires n <= m
    ensures ReadLabel([true, false] + (ToBits(n, FieldWidth(m)) + rest), m) == TakeBits(rest, n)
  {
    var body := ToBits(n, FieldWidth(m)) + rest;
    assert ([true, false] + body)[2..] == body;
    CountRoundTrip(n, m, rest);
  }

  lemma ReadSame(v: bool, n: nat, m: nat, rest: Bits)
    requires n <= m
    ensures ReadLabel([true, true, v] + (ToBits(n, FieldWidth(m)) + rest), m) == Some((Repeat(v, n), rest))
  {
    var body := ToBits(n, FieldWidth(m)) + rest;
    assert ([true, true, v] + body)[3..] == body;
    CountRoundTrip(n, m, rest);
  }

  /** The reader recovers the label and leaves all following bits. */
  lemma LabelRoundTrip(src: Bits, m: nat, rest: Bits)
    requires |src| <= m
    ensures ReadLabel(LabelBits(src, m) + rest, m) == Some((src, rest))
  {
    var count := ToBits(|src|, FieldWidth(m));
    match KindOf(src, m)
    case Short =>
      var ones := Repeat(true, |src|);
      ConcatAssociative([false], ones + ([false] + src), rest);
      ConcatAssociative(ones, [false] + src, rest);
      ConcatAssociative([false], src, rest);
      ReadShort(src, m, rest);
    case Long =>
      ConcatAssociative([true, false], count + src, rest);
      ConcatAssociative(count, src, rest);
      ReadLong(|src|, m, src + rest);
      TakeRoundTrip(src, rest);
    case Same =>
      ConcatAssociative([true, true, src[0]], count, rest);
      ReadSame(src[0], |src|, m, rest);
      assert Repeat(src[0], |src|) == src;
  }

  /** A label takes at most |src| + 2 + k bits. */
  lemma LabelBound(src: Bits, m: nat)
    requires |src| <= m < INT_MAX
    ensures |LabelBits(src, m)| <= |src| + 2 + FieldWidth(m)
  {
    LabelContent(src, m);
    KindIsShortest(src, m, Long);
  }

  /** Only a long label can overflow a cell, and the reader then runs out of
      bits. */
  lemma TruncatedLabelUnreadable(src: Bits, m: nat)
    requires |src| <= m < INT_MAX
    requires |LabelBits(src, m)| > MAX_BITS
    ensures ReadLabel(LabelBits(src, m)[..MAX_BITS], m) == None
  {
    FieldWidthOfInt(m);
    LabelContent(src, m);
    var k := FieldWidth(m);
    assert KindOf(src, m) == Long;
    var cut := src[..MAX_BITS - 2 - k];
    assert LabelBits(src, m)[..MAX_BITS] == [true, false] + (ToBits(|src|, k) + cut);
    ReadLong(|src|, m, cut);
  }
}
