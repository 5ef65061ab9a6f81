/** Jetton message bodies (JettonController) and the way GetTransactionsQuery
    reads them back. */
module JettonBodies {
  import opened BitStrings
  import opened Builders
  import opened Cells
  import opened Codecs
  import opened Slices
  import opened Wrappers

  const MINT: nat := 21
  const TRANSFER: nat := 0xf8a7ea5
  const INTERNAL_TRANSFER: nat := 0x178d4519
  const BURN: nat := 0x595f07bc
  const CHANGE_OWNER: nat := 3
  const CHANGE_CONTENT: nat := 4

  const MINT_GAS: nat := 200_000_000
  const INTERNAL_GAS: nat := 10_000_000
  const TRANSFER_FEE: nat := 1_000_000

  predicate AddressOk(a: Option<Address>) {
    a.Some? ==> ValidAddress(a.value)
  }

  function Head(op: nat, queryId: int): seq<Call> {
    [LongCall(op, 32)] + [LongCall(queryId, 64)]
  }

  function TransferTail(to: Option<Address>, from: Option<Address>): seq<Call> {
    [AddressCall(to)] + ([AddressCall(from)] + ([LongCall(0, 1)] + (CoinsCalls(TRANSFER_FEE) + [LongCall(0, 1)])))
  }

  function Transfer(queryId: int, to: Option<Address>, from: Option<Address>, amount: nat): Cell {
    Run(EMPTY, Head(TRANSFER, queryId) + (CoinsCalls(amount) + TransferTail(to, from)))
  }

  function BurnTail(response: Option<Address>): seq<Call> {
    [AddressCall(response)] + [LongCall(0, 1)]
  }

  function Burn(queryId: int, amount: nat, response: Option<Address>): Cell {
    Run(EMPTY, Head(BURN, queryId) + (CoinsCalls(amount) + BurnTail(response)))
  }

  function InternalTail(owner: Option<Address>): seq<Call> {
    [AddressCall(owner)] + ([AddressCall(owner)] + (CoinsCalls(INTERNAL_GAS) + [LongCall(0, 1)]))
  }

  function InternalMessage(queryId: int, owner: Option<Address>, amount: nat): Cell {
    Run(EMPTY, Head(INTERNAL_TRANSFER, queryId) + (CoinsCalls(amount) + InternalTail(owner)))
  }

  /** The outer message always carries query id 0; the caller's goes inside. */
  function Mint(queryId: int, owner: Option<Address>, amount: nat, gas: nat): Cell {
    Run(EMPTY, Head(MINT, 0) + ([AddressCall(owner)] + (CoinsCalls(gas) + [RefCall(InternalMessage(queryId, owner, amount))])))
  }

  function ChangeOwner(queryId: int, newOwner: Option<Address>): Cell {
    Run(EMPTY, Head(CHANGE_OWNER, queryId) + [AddressCall(newOwner)])
  }

  function ChangeContent(queryId: int, content: Cell): Cell {
    Run(EMPTY, Head(CHANGE_CONTENT, queryId) + [RefCall(content)])
  }

  // ----- reading

  function Signed64(u: nat): int {
    if u < 0x8000_0000_0000_0000 then u else u - 0x1_0000_0000_0000_0000
  }

  /** LoadUint, LoadLong, and what is left. */
  function ReadHead(body: Cell): (nat, int, Cell) {
    var (op, s1) := FetchLong(body, 32);
    var (u, s2) := FetchLong(s1, 64);
    (op, Signed64(u), s2)
  }

  function ReadAmount(body: Cell): Option<(nat, Cell)> {
    FetchCoins(ReadHead(body).2)
  }

  // ----- contents

  lemma BitsThen(b: Bits, call: Call, rest: seq<Call>)
    requires CallContent(call) == Cell(b, [])
    ensures Content([call] + rest) == Cell(b + Content(rest).bits, Content(rest).refs)
  {
    ContentCons(call, rest);
  }

  lemma AddressThen(a: Option<Address>, rest: seq<Call>)
    requires AddressOk(a)
    ensures Content([AddressCall(a)] + rest) == Cell(AddressBits(a) + Content(rest).bits, Content(rest).refs)
    ensures |AddressBits(a)| <= 267
  {
    AddressContent(a);
    BitsThen(AddressBits(a), AddressCall(a), rest);
  }

  lemma CoinsThen(v: nat, rest: seq<Call>)
    ensures Content(CoinsCalls(v) + rest) == Cell(CoinsBits(v) + Content(rest).bits, Content(rest).refs)
  {
    CoinsContent(v);
    ContentConcat(CoinsCalls(v), rest);
  }

  lemma OneBit()
    ensures Content([LongCall(0, 1)]) == Cell([false], [])
  {
    ContentOfOne(LongCall(0, 1));
    assert ToBits(0, 1) == [false];
  }

  lemma HeadContent(op: nat, queryId: int, rest: seq<Call>)
    ensures Content(Head(op, queryId) + rest)
         == Cell(ToBits(op, 32) + (ToBits(queryId, 64) + Content(rest).bits), Content(rest).refs)
  {
    assert Head(op, queryId) + rest == [LongCall(op, 32)] + ([LongCall(queryId, 64)] + rest);
    BitsThen(ToBits(queryId, 64), LongCall(queryId, 64), rest);
    BitsThen(ToBits(op, 32), LongCall(op, 32), [LongCall(queryId, 64)] + rest);
  }

  /** Every amount of 128 bits takes at most 140 bits. */
  lemma AmountSize(v: nat)
    requires v < Pow2(128)
    ensures |CoinsBits(v)| <= 140
  {
    if v > 0 {
      ByteCountRange(v);
    }
  }

  /** The built-in gas amounts are well below 2^119. */
  lemma SmallAmount(v: nat)
    requires v < 0x1_0000_0000
    ensures v < Pow2(119) && |CoinsBits(v)| <= 124
  {
    hide CoinsBits;
    Pow2Values();
    Pow2Monotone(32, 119);
    CoinsSize(v);
  }

  /** When the body fits one cell, operation and query id come back and the rest
      of the stores is what is left to read. */
  lemma HeadRead(op: nat, queryId: int, rest: seq<Call>)
    requires op < 0x1_0000_0000 && IsLong(queryId)
    requires |Content(rest).bits| <= 927 && |Content(rest).refs| <= 4
    ensures ReadHead(Run(EMPTY, Head(op, queryId) + rest)) == (op, queryId, Content(rest))
  {
    hide Run, Content, FetchLong, Head, ToBits;
    var body := Run(EMPTY, Head(op, queryId) + rest);
    var tail := Content(rest);
    HeadContent(op, queryId, rest);
    RunFits(EMPTY, Head(op, queryId) + rest);
    assert body == Cell(ToBits(op, 32) + (ToBits(queryId, 64) + tail.bits), tail.refs);
    Pow2Values();
    FetchLongOfCode(op, 32, ToBits(queryId, 64) + tail.bits, tail.refs);
    FetchLongOfCode(queryId, 64, tail.bits, tail.refs);
    if queryId < 0 {
      DivModUnique(queryId, Pow2(64), -1, queryId + Pow2(64));
    } else {
      DivModUnique(queryId, Pow2(64), 0, queryId);
    }
  }

  lemma AmountRead(op: nat, queryId: int, amount: nat, tail: seq<Call>)
    requires op < 0x1_0000_0000 && IsLong(queryId) && amount < Pow2(128)
    requires |Content(tail).bits| <= 787 && |Content(tail).refs| <= 4
    ensures var body := Run(EMPTY, Head(op, queryId) + (CoinsCalls(amount) + tail));
            && ReadHead(body).0 == op && ReadHead(body).1 == queryId
            && (ReadAmount(body) == Some((amount, Content(tail))) <==> amount < Pow2(119))
  {
    hide Run, Content, Head, CoinsCalls, CoinsBits, ReadHead, FetchCoins, Pow2;
    CoinsThen(amount, tail);
    AmountSize(amount);
    HeadRead(op, queryId, CoinsCalls(amount) + tail);
    CoinsRoundTrip(amount, Content(tail).bits, Content(tail).refs);
  }

  lemma TransferTailContent(to: Option<Address>, from: Option<Address>)
    requires AddressOk(to) && AddressOk(from)
    ensures Content(TransferTail(to, from))
         == Cell(AddressBits(to) + (AddressBits(from) + ([false] + (CoinsBits(TRANSFER_FEE) + [false]))), [])
    ensures |Content(TransferTail(to, from)).bits| <= 787
  {
    hide Content, AddressBits, CoinsBits, AddressCall, CoinsCalls, ToBits;
    OneBit();
    SmallAmount(TRANSFER_FEE);
    CoinsThen(TRANSFER_FEE, [LongCall(0, 1)]);
    ZeroBit();
    BitsThen([false], LongCall(0, 1), CoinsCalls(TRANSFER_FEE) + [LongCall(0, 1)]);
    AddressThen(from, [LongCall(0, 1)] + (CoinsCalls(TRANSFER_FEE) + [LongCall(0, 1)]));
    AddressThen(to, [AddressCall(from)] + ([LongCall(0, 1)] + (CoinsCalls(TRANSFER_FEE) + [LongCall(0, 1)])));
  }

  lemma ZeroBit()
    ensures CallContent(LongCall(0, 1)) == Cell([false], [])
  {
    assert ToBits(0, 1) == [false];
  }

  lemma BurnTailContent(response: Option<Address>)
    requires AddressOk(response)
    ensures Content(BurnTail(response)) == Cell(AddressBits(response) + [false], [])
    ensures |Content(BurnTail(response)).bits| <= 787
  {
    OneBit();
    AddressThen(response, [LongCall(0, 1)]);
  }

  lemma InternalTailContent(owner: Option<Address>)
    requires AddressOk(owner)
    ensures Content(InternalTail(owner))
         == Cell(AddressBits(owner) + (AddressBits(owner) + (CoinsBits(INTERNAL_GAS) + [false])), [])
    ensures |Content(InternalTail(owner)).bits| <= 787
  {
    hide Content, AddressBits, CoinsBits, AddressCall, CoinsCalls, ToBits;
    OneBit();
    SmallAmount(INTERNAL_GAS);
    CoinsThen(INTERNAL_GAS, [LongCall(0, 1)]);
    AddressThen(owner, CoinsCalls(INTERNAL_GAS) + [LongCall(0, 1)]);
    AddressThen(owner, [AddressCall(owner)] + (CoinsCalls(INTERNAL_GAS) + [LongCall(0, 1)]));
  }

  // ----- the bodies

  /** Operation and query id of a transfer come back for every 128-bit amount;
      the amount, and the rest of the TEP-74 layout, exactly below 2^119. */
  lemma TransferDecodes(queryId: int, to: Option<Address>, from: Option<Address>, amount: nat)
    requires IsLong(queryId) && AddressOk(to) && AddressOk(from) && amount < Pow2(128)
    ensures var body := Transfer(queryId, to, from, amount);
            var rest := Cell(AddressBits(to) + (AddressBits(from) + ([false] + (CoinsBits(TRANSFER_FEE) + [false]))), []);
            && ReadHead(body).0 == TRANSFER && ReadHead(body).1 == queryId
            && (ReadAmount(body) == Some((amount, rest)) <==> amount < Pow2(119))
  {
    hide Content, Run, ReadHead, ReadAmount, TransferTail, AddressBits, CoinsBits, Pow2;
    TransferTailContent(to, from);
    AmountRead(TRANSFER, queryId, amount, TransferTail(to, from));
  }

  /** The addresses, the forward fee and the two flags follow the amount. */
  lemma TransferRestDecodes(to: Option<Address>, from: Option<Address>)
    requires AddressOk(to) && AddressOk(from)
    ensures var rest := Cell(AddressBits(to) + (AddressBits(from) + ([false] + (CoinsBits(TRANSFER_FEE) + [false]))), []);
            var (to', s1) := FetchAddress(rest);
            var (from', s2) := FetchAddress(s1);
            && (to' == to <==> (to.Some? ==> to.value.workchain >= 0))
            && (from' == from <==> (from.Some? ==> from.value.workchain >= 0))
            && s2 == Cell([false] + (CoinsBits(TRANSFER_FEE) + [false]), [])
  {
    hide AddressBits, CoinsBits, FetchAddress;
    var tail := [false] + (CoinsBits(TRANSFER_FEE) + [false]);
    AddressRoundTrip(to, AddressBits(from) + tail, []);
    AddressRoundTrip(from, tail, []);
  }

  /** The forward fee is read between two zero flags. */
  lemma TransferFeeDecodes()
    ensures FetchCoins(Cell(CoinsBits(TRANSFER_FEE) + [false], [])) == Some((TRANSFER_FEE, Cell([false], [])))
  {
    hide CoinsBits, FetchCoins, Pow2;
    SmallAmount(TRANSFER_FEE);
    Pow2Monotone(119, 128);
    CoinsRoundTrip(TRANSFER_FEE, [false], []);
  }

  // ----- a transfer through the builder and slice objects

  method StoreTransferTail(b: CellBuilder, to: Option<Address>, from: Option<Address>)
    modifies b
    ensures b.Now() == Run(old(b.Now()), TransferTail(to, from))
  {
    hide Run, RunCall, AddressCall, CoinsCalls, ToBits;
    var flag := [LongCall(0, 1)];
    var fee := CoinsCalls(TRANSFER_FEE) + flag;
    assert DictCall(None) == LongCall(0, 1) by {
      ZeroBit();
    }
    RunCons(b.Now(), AddressCall(to), [AddressCall(from)] + (flag + fee));
    b.StoreAddress(to);
    RunCons(b.Now(), AddressCall(from), flag + fee);
    b.StoreAddress(from);
    RunCons(b.Now(), LongCall(0, 1), fee);
    b.StoreDict(None);
    RunConcat(b.Now(), CoinsCalls(TRANSFER_FEE), flag);
    b.StoreCoins(TRANSFER_FEE);
    RunCons(b.Now(), LongCall(0, 1), []);
    b.Store(0, 1);
  }

  lemma TransferHasNoRefs(queryId: int, to: Option<Address>, from: Option<Address>, amount: nat)
    requires AddressOk(to) && AddressOk(from)
    ensures Transfer(queryId, to, from, amount).refs == []
  {
    hide Run, Content, Head, TransferTail, CoinsCalls;
    var calls := CoinsCalls(amount) + TransferTail(to, from);
    TransferTailContent(to, from);
    CoinsThen(amount, TransferTail(to, from));
    HeadContent(TRANSFER, queryId, calls);
    RunExtends(EMPTY, Head(TRANSFER, queryId) + calls);
  }

  method WriteTransfer(queryId: int, to: Option<Address>, from: Option<Address>, amount: nat) returns (r: Result<Cell>)
    requires AddressOk(to) && AddressOk(from)
    ensures r == Success(Transfer(queryId, to, from, amount))
  {
    hide Run, RunCall, CoinsCalls, TransferTail;
    var b := new CellBuilder.Begin();
    RunConcat(b.Now(), Head(TRANSFER, queryId), CoinsCalls(amount) + TransferTail(to, from));
    RunCons(b.Now(), LongCall(TRANSFER, 32), [LongCall(queryId, 64)]);
    b.Store(TRANSFER, 32);
    RunCons(b.Now(), LongCall(queryId, 64), []);
    b.Store(queryId, 64);
    RunConcat(b.Now(), CoinsCalls(amount), TransferTail(to, from));
    b.StoreCoins(amount);
    StoreTransferTail(b, to, from);
    TransferHasNoRefs(queryId, to, from, amount);
    r := b.End();
  }

  /** What GetTransactionsQuery loads from a body, and the slice it is left with. */
  method LoadBody(s: Slice) returns (op: nat, queryId: int, amount: Option<nat>)
    modifies s
    ensures op == ReadHead(old(s.Rest())).0 && queryId == ReadHead(old(s.Rest())).1
    ensures match ReadAmount(old(s.Rest()))
            case None => amount == None
            case Some((v, rest)) => amount == Some(v) && s.Rest() == rest
  {
    hide FetchLong, FetchCoins;
    op := s.LoadLong(32);
    var u := s.LoadLong(64);
    queryId := Signed64(u);
    amount := s.LoadCoins();
  }

  /** A transfer written by builder calls and read by slice calls: operation and
      query id come back for every amount; below 2^119 the amount does too, and
      each address exactly if its workchain is not negative. */
  method TransferThroughObjects(queryId: int, to: Option<Address>, from: Option<Address>, amount: nat)
    returns (op: nat, queryId': int, amount': Option<nat>, to': Option<Address>, from': Option<Address>)
    requires IsLong(queryId) && AddressOk(to) && AddressOk(from) && amount < Pow2(128)
    ensures op == TRANSFER && queryId' == queryId
    ensures amount < Pow2(119) ==> amount' == Some(amount)
    ensures amount < Pow2(119) ==> (to' == to <==> (to.Some? ==> to.value.workchain >= 0))
    ensures amount < Pow2(119) ==> (from' == from <==> (from.Some? ==> from.value.workchain >= 0))
  {
    hide Transfer, ReadHead, ReadAmount, FetchAddress, AddressBits, CoinsBits, Pow2;
    var body := WriteTransfer(queryId, to, from, amount);
    TransferDecodes(queryId, to, from, amount);
    TransferRestDecodes(to, from);
    var s := new Slice.Create(body.value);
    op, queryId', amount' := LoadBody(s);
    to' := s.LoadAddress();
    from' := s.LoadAddress();
  }

  lemma BurnDecodes(queryId: int, amount: nat, response: Option<Address>)
    requires IsLong(queryId) && AddressOk(response) && amount < Pow2(128)
    ensures var body := Burn(queryId, amount, response);
            && ReadHead(body).0 == BURN && ReadHead(body).1 == queryId
            && (ReadAmount(body) == Some((amount, Cell(AddressBits(response) + [false], []))) <==> amount < Pow2(119))
  {
    hide Content, Run, ReadHead, ReadAmount, BurnTail, AddressBits, Pow2;
    BurnTailContent(response);
    AmountRead(BURN, queryId, amount, BurnTail(response));
  }

  lemma InternalDecodes(queryId: int, owner: Option<Address>, amount: nat)
    requires IsLong(queryId) && AddressOk(owner) && amount < Pow2(128)
    ensures var body := InternalMessage(queryId, owner, amount);
            var rest := Cell(AddressBits(owner) + (AddressBits(owner) + (CoinsBits(INTERNAL_GAS) + [false])), []);
            && ReadHead(body).0 == INTERNAL_TRANSFER && ReadHead(body).1 == queryId
            && (ReadAmount(body) == Some((amount, rest)) <==> amount < Pow2(119))
  {
    hide Content, Run, ReadHead, ReadAmount, InternalTail, AddressBits, CoinsBits, Pow2;
    InternalTailContent(owner);
    AmountRead(INTERNAL_TRANSFER, queryId, amount, InternalTail(owner));
  }

  /** The mint body: operation 21 and query id 0 outside, and the internal
      transfer, untouched, as its only reference. */
  lemma MintDecodes(queryId: int, owner: Option<Address>, amount: nat)
    requires IsLong(queryId) && AddressOk(owner)
    ensures ReadHead(Mint(queryId, owner, amount, MINT_GAS))
         == (MINT, 0, Cell(AddressBits(owner) + CoinsBits(MINT_GAS), [InternalMessage(queryId, owner, amount)]))
  {
    hide Content, Run, ReadHead, AddressBits, CoinsBits, AddressCall, CoinsCalls, InternalMessage, Pow2;
    var inner := [RefCall(InternalMessage(queryId, owner, amount))];
    ContentOfOne(inner[0]);
    SmallAmount(MINT_GAS);
    CoinsThen(MINT_GAS, inner);
    AddressThen(owner, CoinsCalls(MINT_GAS) + inner);
    HeadRead(MINT, 0, [AddressCall(owner)] + (CoinsCalls(MINT_GAS) + inner));
    assert CoinsBits(MINT_GAS) + [] == CoinsBits(MINT_GAS);
  }

  lemma ChangesDecode(queryId: int, newOwner: Option<Address>, content: Cell)
    requires IsLong(queryId) && AddressOk(newOwner)
    ensures ReadHead(ChangeOwner(queryId, newOwner)) == (CHANGE_OWNER, queryId, Cell(AddressBits(newOwner), []))
    ensures ReadHead(ChangeContent(queryId, content)) == (CHANGE_CONTENT, queryId, Cell([], [content]))
  {
    hide Content, Run, ReadHead, AddressBits, AddressCall;
    AddressContent(newOwner);
    ContentOfOne(AddressCall(newOwner));
    ContentOfOne(RefCall(content));
    HeadRead(CHANGE_OWNER, queryId, [AddressCall(newOwner)]);
    HeadRead(CHANGE_CONTENT, queryId, [RefCall(content)]);
  }
}
