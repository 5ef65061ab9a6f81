/** NftController.BatchMint, the client of the dictionary serializer. */
module NftBatch {
  import opened BitStrings
  import opened Cells
  import opened Codecs
  import opened HashmapLabels
  import opened Hashmaps
  import opened JettonBodies
  import opened Tries
  import opened Wrappers

  const NFT_BATCH_MINT: nat := 2

  const KEY_LENGTH: nat := 64

  datatype MintItem = MintItem(index: int, passAmount: nat, owner: Option<Address>, content: seq<Byte>)

  predicate ValidItem(item: MintItem) {
    IsLong(item.index) && item.passAmount < Pow2(128) && AddressOk(item.owner)
  }

  function ContentCell(item: MintItem): Cell {
    Run(EMPTY, [BytesCall(item.content)])
  }

  function ItemMessage(item: MintItem): Cell {
    Run(EMPTY, [AddressCall(item.owner)] + [RefCall(ContentCell(item))])
  }

  /** The serializer BatchMint passes on. */
  function ItemCalls(item: MintItem): seq<Call> {
    CoinsCalls(item.passAmount) + [RefCall(ItemMessage(item))]
  }

  function ByIndex(items: seq<MintItem>): IntDict<MintItem> {
    seq(|items|, i requires 0 <= i < |items| => (items[i].index, items[i]))
  }

  method BatchMint(queryId: int, items: seq<MintItem>) returns (r: Result<Cell>, ghost dict: Cell)
    requires forall i :: 0 <= i < |items| ==> ValidItem(items[i])
    requires forall i, j :: 0 <= i < j < |items| ==> items[i].index != items[j].index
    ensures r.Success? <==> items != []
    ensures r.Success? && IsLong(queryId) ==> ReadHead(r.value) == (NFT_BATCH_MINT, queryId, Cell([], [dict]))
    ensures r.Success? ==> ReadsBack(dict, ByIndex(items), KEY_LENGTH, ItemCalls)
    ensures r.Success? ==> forall i :: 0 <= i < |items| ==>
              && ToBits(items[i].index, KEY_LENGTH) in ReadMap(dict, KEY_LENGTH).value
              && ReadMap(dict, KEY_LENGTH).value[ToBits(items[i].index, KEY_LENGTH)] == Content(ItemCalls(items[i]))
  {
    hide ReadMap, Content, ToBits, Pow2, Run, ReadHead;
    dict := EMPTY;
    var src := ByIndex(items);
    forall i | 0 <= i < |src| ensures KeyFits(src[i].0, KEY_LENGTH) {
      LongKeysFit(src[i].0);
    }
    var cell, t := Serialize(src, KEY_LENGTH, ItemCalls);
    if t.Some? {
      EveryCellFits(t.value, items);
    }
    if cell.Failure? {
      return Failure(cell.error), dict;
    }
    dict := cell.value;
    r := Success(Run(EMPTY, Head(NFT_BATCH_MINT, queryId) + [RefCall(cell.value)]));
    if IsLong(queryId) {
      BodyHead(queryId, dict);
    }
    forall i | 0 <= i < |items|
      ensures ToBits(src[i].0 % Pow2(64), KEY_LENGTH) == ToBits(items[i].index, KEY_LENGTH)
    {
      LongCode(items[i].index);
    }
  }

  /** A 64-bit code depends on the 64-bit pattern alone. */
  lemma LongCode(k: int)
    ensures ToBits(k % Pow2(64), KEY_LENGTH) == ToBits(k, KEY_LENGTH)
  {
    hide ToBits;
    DivModUnique(k % Pow2(64), Pow2(64), 0, k % Pow2(64));
    ToBitsMod(k % Pow2(64), k, KEY_LENGTH);
  }

  lemma BodyHead(queryId: int, dict: Cell)
    requires IsLong(queryId)
    ensures ReadHead(Run(EMPTY, Head(NFT_BATCH_MINT, queryId) + [RefCall(dict)]))
         == (NFT_BATCH_MINT, queryId, Cell([], [dict]))
  {
    hide Run, ReadHead, Content;
    ContentOfOne(RefCall(dict));
    HeadRead(NFT_BATCH_MINT, queryId, [RefCall(dict)]);
  }

  /** A 64-bit key has room for every long, also a negative one. */
  lemma LongKeysFit(k: int)
    requires IsLong(k)
    ensures KeyFits(k, KEY_LENGTH)
  {
    Pow2Values();
  }

  lemma ItemContent(item: MintItem)
    ensures Content(ItemCalls(item)) == Cell(CoinsBits(item.passAmount), [ItemMessage(item)])
  {
    hide Content, CoinsBits, CoinsCalls, ItemMessage;
    ContentOfOne(RefCall(ItemMessage(item)));
    CoinsThen(item.passAmount, [RefCall(ItemMessage(item))]);
    assert CoinsBits(item.passAmount) + [] == CoinsBits(item.passAmount);
  }

  /** The amount of an item is read back from its payload exactly below 2^119. */
  lemma ItemAmountReads(item: MintItem)
    requires ValidItem(item)
    ensures FetchCoins(Content(ItemCalls(item))) == Some((item.passAmount, Cell([], [ItemMessage(item)])))
       <==> item.passAmount < Pow2(119)
  {
    hide Content, CoinsBits, ItemCalls, ItemMessage, Pow2, FetchCoins;
    ItemContent(item);
    CoinsRoundTrip(item.passAmount, [], [ItemMessage(item)]);
    assert CoinsBits(item.passAmount) + [] == CoinsBits(item.passAmount);
  }

  /** 140 bits of amount, a label of at most 64 + 2 + 7 bits: far below 1023. */
  lemma ItemWithinBudget(item: MintItem)
    requires ValidItem(item)
    ensures WithinBudget(ItemCalls(item), KEY_LENGTH)
    ensures FieldWidth(KEY_LENGTH) == 7
  {
    hide Content, CoinsBits, ItemCalls, Pow2;
    ItemContent(item);
    AmountSize(item.passAmount);
    SevenBits();
  }

  lemma SevenBits()
    ensures FieldWidth(KEY_LENGTH) == 7
  {
    CeilLog2IsBitLength(64);
    assert Pow2(6) == 64 && Pow2(7) == 128;
    BitLengthUnique(64, 7);
  }

  /** No store of the batch dictionary is dropped, so it reads back whole. */
  lemma EveryCellFits(t: Tree<MintItem>, items: seq<MintItem>)
    requires WellFormed(t, KEY_LENGTH) && AgreesWithInts(t, ByIndex(items), KEY_LENGTH)
    requires forall i :: 0 <= i < |items| ==> ValidItem(items[i])
    ensures Fits(t, KEY_LENGTH, ItemCalls)
    ensures ForkDepth(t) <= 64
    ensures Depth(EdgeCell(t, KEY_LENGTH, ItemCalls)) <= 66
  {
    hide EdgeCell, Content, ItemCalls, MaxDepth, WithinBudget, Fits;
    var src := ByIndex(items);
    forall k: Bits, v: MintItem | Lookup(t, k) == Some(v)
      ensures WithinBudget(ItemCalls(v), KEY_LENGTH) && MaxDepth(Content(ItemCalls(v)).refs) < 2
    {
      assert Lookup(t, k).Some?;
      var i :| 0 <= i < |src| && ToBits(src[i].0 % Pow2(64), KEY_LENGTH) == k;
      assert v == items[i];
      ItemWithinBudget(v);
      ItemDepth(v);
    }
    SevenBits();
    BudgetSuffices(t, KEY_LENGTH, KEY_LENGTH, ItemCalls);
    DepthBound(t, KEY_LENGTH);
    CellDepthBound(t, KEY_LENGTH, ItemCalls, 2);
  }

  lemma ItemDepth(item: MintItem)
    requires ValidItem(item)
    ensures MaxDepth(Content(ItemCalls(item)).refs) == 1
  {
    hide Content, ItemCalls, AddressBits;
    ItemContent(item);
    ItemMessageWhole(item);
    DepthOfOne(AddressBits(item.owner), ContentCell(item));
    ContentCellFlat(item);
    assert [ItemMessage(item)][1..] == [];
  }

  lemma ContentCellFlat(item: MintItem)
    ensures ContentCell(item).refs == []
  {
    var call := BytesCall(item.content);
    RunCons(EMPTY, call, []);
    RunCallExtends(EMPTY, call);
  }

  /** The message of an item: its owner's address, and its content cell. */
  lemma ItemMessageWhole(item: MintItem)
    requires ValidItem(item)
    ensures ItemMessage(item) == Cell(AddressBits(item.owner), [ContentCell(item)])
  {
    hide AddressBits, AddressCall, ContentCell, Content;
    var calls := [AddressCall(item.owner)] + [RefCall(ContentCell(item))];
    ContentOfOne(RefCall(ContentCell(item)));
    AddressThen(item.owner, [RefCall(ContentCell(item))]);
    RunFits(EMPTY, calls);
    assert EMPTY.bits + (AddressBits(item.owner) + []) == AddressBits(item.owner);
  }

  /** The item's own content cell takes the bytes in one store: it keeps them
      exactly up to 127 bytes, and drops them all beyond. */
  lemma ContentKeptUpTo127(item: MintItem)
    ensures ContentCell(item) == Cell(BytesToBits(item.content), []) <==> |item.content| <= 127
    ensures |item.content| > 127 ==> ContentCell(item) == EMPTY
  {
    var call := BytesCall(item.content);
    RunCons(EMPTY, call, []);
    assert call[1..] == [];
    assert [] + BytesToBits(item.content) == BytesToBits(item.content);
  }
}
