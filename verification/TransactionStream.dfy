/** GetTransactionsQuery: records streamed by the native library are assembled
    into transactions, and each transaction is decoded into details. */
module TransactionStream {
  import opened BitStrings
  import opened Cells
  import opened Codecs
  import opened JettonBodies
  import opened Wrappers

  const TRANSFER_NOTIFICATION: nat := 0x7362d09c
  const BURN_NOTIFICATION: nat := 0x7bdd97de
  const NONE: nat := 0

  datatype WalletType = JettonWallet | JettonMinter | OtherWallet

  /** The body of a raw message is a cell; other messages carry text or nothing. */
  datatype Content = Raw(body: Cell) | Text(text: string) | Opaque

  datatype Message = Message(isOut: bool, address: string, value: nat, content: Content)

  /** lt stands for all fields of the native transaction record. */
  datatype Record = Tx(lt: nat) | Msg(msg: Message) | Ignored

  datatype RTransaction = RTransaction(lt: nat, messages: seq<Message>)

  // ----- assembly

  function Records(t: RTransaction): seq<Record> {
    [Tx(t.lt)] + seq(|t.messages|, i requires 0 <= i < |t.messages| => Msg(t.messages[i]))
  }

  function Flatten(ts: seq<RTransaction>): seq<Record> {
    if ts == [] then [] else Flatten(ts[..|ts| - 1]) + Records(ts[|ts| - 1])
  }

  /** The stream without the records that OnAddTransaction skips. */
  function Relevant(stream: seq<Record>): seq<Record> {
    if stream == [] then []
    else Relevant(stream[..|stream| - 1]) + (if stream[|stream| - 1].Ignored? then [] else [stream[|stream| - 1]])
  }

  predicate StartsWell(stream: seq<Record>) {
    Relevant(stream) == [] || Relevant(stream)[0].Tx?
  }

  lemma FlattenAppend(ts: seq<RTransaction>, t: RTransaction)
    ensures Flatten(ts + [t]) == Flatten(ts) + Records(t)
  {
    assert (ts + [t])[..|ts + [t]| - 1] == ts;
  }

  lemma RecordsAppend(t: RTransaction, m: Message)
    ensures Records(t.(messages := t.messages + [m])) == Records(t) + [Msg(m)]
  {
  }

  lemma {:induction false} FlattenStartsWithTx(ts: seq<RTransaction>)
    ensures Flatten(ts) == [] <==> ts == []
    ensures ts != [] ==> Flatten(ts)[0].Tx?
  {
    if |ts| > 1 {
      FlattenStartsWithTx(ts[..|ts| - 1]);
    } else if |ts| == 1 {
      assert Flatten(ts[..0]) == [];
    }
  }

  class GetTransactionsQuery {
    var transactions: seq<RTransaction>
    var last: Option<RTransaction>
    var endLoaded: bool

    ghost function Assembled(): seq<Record>
      reads this
    {
      Flatten(transactions) + match last case None => [] case Some(t) => Records(t)
    }

    constructor ()
      ensures transactions == [] && last == None && !endLoaded
    {
      transactions, last, endLoaded := [], None, false;
    }

    /** A message before any transaction dereferences null. */
    method OnAddTransaction(r: Record) returns (ok: Result<()>)
      modifies this
      ensures endLoaded == old(endLoaded)
      ensures ok.Failure? <==> r.Msg? && old(last) == None
      ensures ok.Failure? ==> transactions == old(transactions) && last == old(last)
      ensures ok.Success? ==> Assembled() == old(Assembled()) + (if r.Ignored? then [] else [r])
      ensures r.Tx? || (old(last).Some? && ok.Success?) ==> last.Some?
      ensures old(last).None? && !r.Tx? ==> last.None? && transactions == old(transactions)
    {
      match r {
        case Tx(lt) =>
          if last.Some? {
            FlattenAppend(transactions, last.value);
            transactions := transactions + [last.value];
          }
          last := Some(RTransaction(lt, []));
        case Msg(m) =>
          if last == None {
            return Failure("null reference");
          }
          RecordsAppend(last.value, m);
          last := Some(last.value.(messages := last.value.messages + [m]));
        case Ignored =>
      }
      return Success(());
    }

    method OnResult(allLoaded: bool)
      modifies this
      ensures last == None && Flatten(transactions) == old(Assembled())
      ensures endLoaded == (old(endLoaded) || allLoaded)
    {
      if last.Some? {
        FlattenAppend(transactions, last.value);
        transactions := transactions + [last.value];
      }
      last := None;
      if allLoaded {
        endLoaded := true;
      }
    }

    /** The callbacks of one query, in order, then its result: every stream that
        starts with a transaction is assembled without loss, any other throws. */
    method Receive(stream: seq<Record>, allLoaded: bool) returns (ok: Result<()>)
      requires transactions == [] && last == None
      modifies this
      ensures ok.Success? <==> StartsWell(stream)
      ensures ok.Success? ==> Flatten(transactions) == Relevant(stream) && last == None
      ensures ok.Success? ==> endLoaded == (old(endLoaded) || allLoaded)
    {
      for i := 0 to |stream|
        invariant Assembled() == Relevant(stream[..i]) && StartsWell(stream[..i])
        invariant last == None ==> transactions == []
        invariant endLoaded == old(endLoaded)
      {
        assert stream[..i + 1][..i] == stream[..i];
        if last.Some? {
          StartsFixed(stream, i + 1);
          AssembledNonEmpty();
        }
        ok := OnAddTransaction(stream[i]);
        if ok.Failure? {
          StartsFixed(stream, i + 1);
          assert Relevant(stream[..i]) == [];
          assert Relevant(stream[..i + 1]) == [stream[i]];
          return;
        }
      }
      assert stream[..|stream|] == stream;
      OnResult(allLoaded);
      ok := Success(());
    }

    lemma AssembledNonEmpty()
      requires last.Some?
      ensures Assembled() != [] && Assembled()[0].Tx?
    {
      FlattenStartsWithTx(transactions);
    }
  }

  lemma {:induction false} RelevantPrefix(stream: seq<Record>, i: nat)
    requires i <= |stream|
    ensures Relevant(stream[..i]) <= Relevant(stream)
  {
    if i < |stream| {
      RelevantPrefix(stream[..|stream| - 1], i);
      assert stream[..|stream| - 1][..i] == stream[..i];
    } else {
      assert stream[..i] == stream;
    }
  }

  /** Once something relevant was seen, it decides. */
  lemma StartsFixed(stream: seq<Record>, i: nat)
    requires i <= |stream|
    ensures Relevant(stream[..i]) != [] ==> (StartsWell(stream) <==> Relevant(stream[..i])[0].Tx?)
  {
    RelevantPrefix(stream, i);
  }

  // ----- decoding

  datatype Detail =
    | TonDetail(address: string, value: nat, text: Option<string>, kind: nat, isOut: bool, queryId: int)
    | JettonDetail(address: string, amount: nat, kind: nat, isOut: bool)

  /** The type under which a message counts for this kind of wallet, and whether
      its direction is reversed. */
  function Classify(op: nat, walletType: WalletType, isOut: bool): (nat, bool) {
    if op == TRANSFER then (if walletType == JettonWallet && !isOut then NONE else op, isOut)
    else if op == INTERNAL_TRANSFER then
      if walletType == JettonMinter then (MINT, !isOut) else (op, isOut)
    else if op == TRANSFER_NOTIFICATION then (if walletType == JettonWallet then NONE else op, isOut)
    else if op == BURN_NOTIFICATION then
      if walletType == JettonMinter then (BURN, !isOut) else (op, isOut)
    else if op == BURN then
      (if (walletType == JettonWallet && !isOut) || walletType == JettonMinter then NONE else op, isOut)
    else (NONE, isOut)
  }

  /** The details of one message and the group type after it. None stands for
      the crash on an amount that is cut off. */
  function Decode(m: Message, walletType: WalletType, known: set<string>, grtype: nat): Option<(seq<Detail>, nat)> {
    match m.content
    case Raw(body) =>
      var (op, s1) := FetchLong(body, 32);
      var (kind, out) := Classify(op, walletType, m.isOut);
      var (u, s2) := if op != NONE then FetchLong(s1, 64) else (0, s1);
      var ton := TonDetail(m.address, m.value, None, op, m.isOut, Signed64(u));
      var grtype' := if !m.isOut then op else if kind != NONE && out then kind else grtype;
      if kind == NONE then Some(([ton], grtype'))
      else
        (match FetchCoins(s2)
         case None => None
         case Some((amount, _)) =>
           Some((if m.address in known then [JettonDetail(m.address, amount, kind, out), ton] else [ton], grtype')))
    case Text(text) =>
      Some(([TonDetail(m.address, m.value, Some(text), NONE, m.isOut, 0)], if !m.isOut then NONE else grtype))
    case Opaque =>
      Some(([TonDetail(m.address, m.value, None, NONE, m.isOut, 0)], if !m.isOut then NONE else grtype))
  }

  function DecodeAll(ms: seq<Message>, walletType: WalletType, known: set<string>): Option<(seq<Detail>, nat)> {
    if ms == [] then Some(([], NONE))
    else
      match DecodeAll(ms[..|ms| - 1], walletType, known)
      case None => None
      case Some((details, grtype)) =>
        match Decode(ms[|ms| - 1], walletType, known, grtype)
        case None => None
        case Some((more, grtype')) => Some((details + more, grtype'))
  }

  datatype Entry =
    | Single(lt: nat, detail: Detail)
    | Group(lt: nat, kind: nat, details: seq<Detail>)

  function Details(e: Entry): seq<Detail> {
    match e
    case Single(_, d) => [d]
    case Group(_, _, ds) => ds
  }

  /** d belongs to m: everything the Toncoin detail says about its message. */
  predicate Describes(d: Detail, m: Message) {
    && d.TonDetail? && d.address == m.address && d.value == m.value && d.isOut == m.isOut
    && d.text == (match m.content case Text(t) => Some(t) case _ => None)
  }

  /** details is the messages' Toncoin details in order, each possibly preceded
      by one jetton detail of the same message. */
  ghost predicate OnePerMessage(details: seq<Detail>, ms: seq<Message>)
    decreases ms
  {
    if ms == [] then details == []
    else
      && details != [] && Describes(details[|details| - 1], ms[|ms| - 1])
      && (OnePerMessage(details[..|details| - 1], ms[..|ms| - 1]) ||
          (|details| >= 2 && details[|details| - 2].JettonDetail? && details[|details| - 2].address == ms[|ms| - 1].address
           && OnePerMessage(details[..|details| - 2], ms[..|ms| - 1])))
  }

  lemma DecodeShape(m: Message, walletType: WalletType, known: set<string>, grtype: nat)
    requires Decode(m, walletType, known, grtype).Some?
    ensures var (ds, _) := Decode(m, walletType, known, grtype).value;
            && 1 <= |ds| <= 2 && Describes(ds[|ds| - 1], m)
            && (|ds| == 2 ==> ds[0].JettonDetail? && ds[0].address == m.address)
  {
  }

  lemma {:induction false} DecodedOnePerMessage(ms: seq<Message>, walletType: WalletType, known: set<string>)
    requires DecodeAll(ms, walletType, known).Some?
    ensures OnePerMessage(DecodeAll(ms, walletType, known).value.0, ms)
  {
    if ms == [] {
    } else {
      var front, m := ms[..|ms| - 1], ms[|ms| - 1];
      DecodedOnePerMessage(front, walletType, known);
      var (details, grtype) := DecodeAll(front, walletType, known).value;
      DecodeShape(m, walletType, known, grtype);
      var (more, _) := Decode(m, walletType, known, grtype).value;
      var all := details + more;
      assert all[..|all| - |more|] == details;
    }
  }

  function TonCount(details: seq<Detail>): nat {
    if details == [] then 0
    else TonCount(details[..|details| - 1]) + if details[|details| - 1].TonDetail? then 1 else 0
  }

  lemma {:induction false} OneTonDetailEach(details: seq<Detail>, ms: seq<Message>)
    requires OnePerMessage(details, ms)
    ensures TonCount(details) == |ms| && |details| <= 2 * |ms|
    decreases ms
  {
    if ms == [] {
    } else {
      var front := details[..|details| - 1];
      if OnePerMessage(front, ms[..|ms| - 1]) {
        OneTonDetailEach(front, ms[..|ms| - 1]);
      } else {
        OneTonDetailEach(details[..|details| - 2], ms[..|ms| - 1]);
        assert front[..|front| - 1] == details[..|details| - 2];
      }
    }
  }

  // ----- which messages show a jetton payment

  /** The table: under which kind, and in which direction, a message of operation
      op counts for a wallet. There is at most one row for a message. */
  ghost predicate Row(op: nat, w: WalletType, isOut: bool, kind: nat, out: bool) {
    || (op == TRANSFER && (w != JettonWallet || isOut) && kind == TRANSFER && out == isOut)
    || (op == INTERNAL_TRANSFER && w == JettonMinter && kind == MINT && out == !isOut)
    || (op == INTERNAL_TRANSFER && w != JettonMinter && kind == INTERNAL_TRANSFER && out == isOut)
    || (op == TRANSFER_NOTIFICATION && w != JettonWallet && kind == TRANSFER_NOTIFICATION && out == isOut)
    || (op == BURN_NOTIFICATION && w == JettonMinter && kind == BURN && out == !isOut)
    || (op == BURN_NOTIFICATION && w != JettonMinter && kind == BURN_NOTIFICATION && out == isOut)
    || (op == BURN && w == OtherWallet && kind == BURN && out == isOut)
    || (op == BURN && w == JettonWallet && isOut && kind == BURN && out)
  }

  ghost predicate InTable(m: Message, w: WalletType) {
    m.content.Raw? && exists kind, out :: Row(Op(m), w, m.isOut, kind, out)
  }

  /** The first 32 bits of a body; 0 for any other message. */
  function Op(m: Message): nat {
    match m.content
    case Raw(body) => FetchLong(body, 32).0
    case _ => NONE
  }

  /** The next 64 bits, as a signed number, of a body with an operation. */
  function QueryIdOf(m: Message): int {
    if Op(m) == NONE then 0 else Signed64(FetchLong(FetchLong(m.content.body, 32).1, 64).0)
  }

  /** The amount behind them, unless it is cut off. */
  function AmountOf(m: Message): Option<nat>
    requires m.content.Raw?
  {
    match FetchCoins(FetchLong(FetchLong(m.content.body, 32).1, 64).1)
    case None => None
    case Some((amount, _)) => Some(amount)
  }

  /** A message of the table whose amount cannot be read. */
  ghost predicate CutOff(m: Message, w: WalletType) {
    InTable(m, w) && AmountOf(m) == None
  }

  /** The details of one message: its Toncoin detail, and before it a jetton
      detail exactly when the message is in the table and comes from, or goes to,
      a known jetton address. */
  ghost predicate MessageDetails(ds: seq<Detail>, m: Message, w: WalletType, known: set<string>) {
    && ds != [] && Describes(ds[|ds| - 1], m)
    && ds[|ds| - 1].kind == Op(m) && ds[|ds| - 1].queryId == QueryIdOf(m)
    && if InTable(m, w) && m.address in known
       then |ds| == 2 && ds[0].JettonDetail? && ds[0].address == m.address
            && Row(Op(m), w, m.isOut, ds[0].kind, ds[0].isOut) && AmountOf(m) == Some(ds[0].amount)
       else |ds| == 1
  }

  function Concat(parts: seq<seq<Detail>>): seq<Detail> {
    if parts == [] then [] else Concat(parts[..|parts| - 1]) + parts[|parts| - 1]
  }

  /** The details of all messages, one after the other. */
  ghost predicate AllDetails(details: seq<Detail>, ms: seq<Message>, w: WalletType, known: set<string>) {
    exists parts :: Concat(parts) == details && |parts| == |ms|
      && forall i :: 0 <= i < |ms| ==> MessageDetails(parts[i], ms[i], w, known)
  }

  /** Whether a message decides the kind of its group: every incoming one does,
      an outgoing one only with a row that leaves its direction. */
  ghost predicate Decides(m: Message, w: WalletType, kind: nat) {
    if m.isOut then m.content.Raw? && Row(Op(m), w, true, kind, true) else kind == Op(m)
  }

  ghost predicate Deciding(m: Message, w: WalletType) {
    exists kind :: Decides(m, w, kind)
  }

  /** The last message that decides gives the kind; without one there is none. */
  ghost predicate GroupKind(kind: nat, ms: seq<Message>, w: WalletType) {
    if ms == [] then kind == NONE
    else if Deciding(ms[|ms| - 1], w) then Decides(ms[|ms| - 1], w, kind)
    else GroupKind(kind, ms[..|ms| - 1], w)
  }

  /** Classify computes the table. */
  lemma ClassifyIsTable(op: nat, w: WalletType, isOut: bool)
    ensures var (kind, out) := Classify(op, w, isOut);
            && (kind == NONE ==> forall k, o :: !Row(op, w, isOut, k, o))
            && (kind != NONE ==> op != NONE && forall k, o :: Row(op, w, isOut, k, o) <==> k == kind && o == out)
  {
  }

  lemma DecodedExactly(m: Message, w: WalletType, known: set<string>, grtype: nat)
    ensures Decode(m, w, known, grtype).None? <==> CutOff(m, w)
    ensures Decode(m, w, known, grtype).Some? ==> MessageDetails(Decode(m, w, known, grtype).value.0, m, w, known)
  {
    hide FetchLong, FetchCoins, Classify, Row;
    ClassifyIsTable(Op(m), w, m.isOut);
    if m.content.Raw? {
      var (kind, out) := Classify(Op(m), w, m.isOut);
      assert kind != NONE ==> Row(Op(m), w, m.isOut, kind, out);
      assert InTable(m, w) <==> kind != NONE;
    }
  }

  lemma KindDecided(m: Message, w: WalletType, known: set<string>, grtype: nat)
    requires Decode(m, w, known, grtype).Some?
    ensures var kind := Decode(m, w, known, grtype).value.1;
            if Deciding(m, w) then Decides(m, w, kind) else kind == grtype
  {
    hide FetchLong, FetchCoins, Classify, Row, Signed64;
    ClassifyIsTable(Op(m), w, m.isOut);
    var (kind, out) := Classify(Op(m), w, m.isOut);
    assert !m.isOut ==> Decides(m, w, Op(m));
    assert m.isOut && m.content.Raw? && kind != NONE && out ==> Decides(m, w, kind);
  }

  lemma ConcatLast(parts: seq<seq<Detail>>, part: seq<Detail>)
    ensures Concat(parts + [part]) == Concat(parts) + part
  {
    assert (parts + [part])[..|parts|] == parts;
  }

  lemma MoreDetails(details: seq<Detail>, more: seq<Detail>, front: seq<Message>, m: Message, w: WalletType, known: set<string>)
    requires AllDetails(details, front, w, known) && MessageDetails(more, m, w, known)
    ensures AllDetails(details + more, front + [m], w, known)
  {
    hide MessageDetails;
    var parts :| Concat(parts) == details && |parts| == |front|
      && forall i :: 0 <= i < |front| ==> MessageDetails(parts[i], front[i], w, known);
    ConcatLast(parts, more);
    var parts' := parts + [more];
    assert forall i :: 0 <= i < |front| + 1 ==> MessageDetails(parts'[i], (front + [m])[i], w, known);
  }

  lemma {:induction false} AllDecodedExactly(ms: seq<Message>, w: WalletType, known: set<string>)
    ensures DecodeAll(ms, w, known).None? <==> exists i :: 0 <= i < |ms| && CutOff(ms[i], w)
    ensures DecodeAll(ms, w, known).Some? ==> AllDetails(DecodeAll(ms, w, known).value.0, ms, w, known)
    ensures DecodeAll(ms, w, known).Some? ==> GroupKind(DecodeAll(ms, w, known).value.1, ms, w)
  {
    hide Decode, MessageDetails, AllDetails, CutOff, Decides, Deciding;
    if ms == [] {
      NoDetails(w, known);
    } else {
      var front, m := ms[..|ms| - 1], ms[|ms| - 1];
      AllDecodedExactly(front, w, known);
      assert ms == front + [m];
      if DecodeAll(front, w, known).Some? {
        var (details, grtype) := DecodeAll(front, w, known).value;
        DecodedExactly(m, w, known, grtype);
        if Decode(m, w, known, grtype).Some? {
          MoreDetails(details, Decode(m, w, known, grtype).value.0, front, m, w, known);
          KindDecided(m, w, known, grtype);
        }
      }
    }
  }

  lemma NoDetails(w: WalletType, known: set<string>)
    ensures AllDetails([], [], w, known)
  {
    assert Concat([]) == [];
  }

  method DecodeTransaction(t: RTransaction, walletType: WalletType, known: set<string>) returns (r: Result<Entry>)
    ensures r.Success? <==> DecodeAll(t.messages, walletType, known).Some?
    ensures r.Success? ==> r.value.lt == t.lt && OnePerMessage(Details(r.value), t.messages)
    ensures r.Success? ==> Details(r.value) == DecodeAll(t.messages, walletType, known).value.0
    ensures r.Success? ==> (r.value.Single? <==> |Details(r.value)| == 1)
    ensures r.Success? && r.value.Group? ==> r.value.kind == DecodeAll(t.messages, walletType, known).value.1
    ensures r.Failure? <==> exists i :: 0 <= i < |t.messages| && CutOff(t.messages[i], walletType)
    ensures r.Success? ==> AllDetails(Details(r.value), t.messages, walletType, known)
    ensures r.Success? && r.value.Group? ==> GroupKind(r.value.kind, t.messages, walletType)
  {
    hide AllDetails, GroupKind, CutOff, Decode, OnePerMessage;
    AllDecodedExactly(t.messages, walletType, known);
    var grtype, tarr := NONE, [];
    for i := 0 to |t.messages|
      invariant DecodeAll(t.messages[..i], walletType, known) == Some((tarr, grtype))
    {
      assert t.messages[..i + 1][..i] == t.messages[..i];
      var d := Decode(t.messages[i], walletType, known, grtype);
      if d.None? {
        FailedDecodeStays(t.messages, i + 1, walletType, known);
        return Failure("amount cut off");
      }
      tarr, grtype := tarr + d.value.0, d.value.1;
    }
    assert t.messages[..|t.messages|] == t.messages;
    DecodedOnePerMessage(t.messages, walletType, known);
    if |tarr| == 1 {
      assert [tarr[0]] == tarr;
      return Success(Single(t.lt, tarr[0]));
    }
    return Success(Group(t.lt, grtype, tarr));
  }

  lemma {:induction false} FailedDecodeStays(ms: seq<Message>, i: nat, walletType: WalletType, known: set<string>)
    requires i <= |ms| && DecodeAll(ms[..i], walletType, known).None?
    ensures DecodeAll(ms, walletType, known).None?
  {
    if i < |ms| {
      assert ms[..|ms| - 1][..i] == ms[..i];
      FailedDecodeStays(ms[..|ms| - 1], i, walletType, known);
    } else {
      assert ms[..i] == ms;
    }
  }

  /** What a transaction becomes: an entry with the details of its messages, a
      single one exactly for a single detail, and a group of the decided kind. */
  ghost predicate EntryFor(e: Entry, t: RTransaction, w: WalletType, known: set<string>) {
    && e.lt == t.lt && OnePerMessage(Details(e), t.messages) && AllDetails(Details(e), t.messages, w, known)
    && (e.Single? <==> |Details(e)| == 1)
    && (e.Group? ==> GroupKind(e.kind, t.messages, w))
  }

  ghost predicate SomeCutOff(t: RTransaction, w: WalletType) {
    exists i :: 0 <= i < |t.messages| && CutOff(t.messages[i], w)
  }

  /** One entry per transaction, in order; null when the query had found the end
      or nothing was assembled. */
  method GetTransactions(q: GetTransactionsQuery, walletType: WalletType, known: set<string>)
    returns (r: Result<Option<seq<Entry>>>)
    ensures r.Success? ==> (r.value.None? <==> q.endLoaded || q.transactions == [])
    ensures r.Success? && r.value.Some? ==>
              && |r.value.value| == |q.transactions|
              && forall i :: 0 <= i < |q.transactions| ==>
                   EntryFor(r.value.value[i], q.transactions[i], walletType, known)
    ensures r.Failure? <==>
              (!q.endLoaded && exists i :: 0 <= i < |q.transactions| && SomeCutOff(q.transactions[i], walletType))
  {
    hide DecodeAll, OnePerMessage, Details, AllDetails, GroupKind, CutOff;
    if q.endLoaded {
      return Success(None);
    }
    if |q.transactions| == 0 {
      return Success(None);
    }
    var trs: seq<Entry> := [];
    for i := 0 to |q.transactions|
      invariant |trs| == i
      invariant forall j :: 0 <= j < i ==>
        !SomeCutOff(q.transactions[j], walletType) && EntryFor(trs[j], q.transactions[j], walletType, known)
    {
      var e := DecodeTransaction(q.transactions[i], walletType, known);
      if e.Failure? {
        return Failure(e.error);
      }
      trs := trs + [e.value];
    }
    return Success(Some(trs));
  }

  // ----- end to end with the bodies this program sends

  /** A transfer sent from a wallet shows up as its jetton detail, with the amount
      written, followed by the Toncoin detail with the query id written. */
  lemma SentTransferShown(queryId: int, to: Option<Address>, from: Option<Address>, amount: nat,
                          address: string, value: nat, walletType: WalletType, known: set<string>, grtype: nat)
    requires IsLong(queryId) && AddressOk(to) && AddressOk(from) && amount < Pow2(119) && address in known
    ensures Decode(Message(true, address, value, Raw(Transfer(queryId, to, from, amount))), walletType, known, grtype)
         == Some(([JettonDetail(address, amount, TRANSFER, true),
                   TonDetail(address, value, None, TRANSFER, true, queryId)], TRANSFER))
  {
    hide Transfer, FetchCoins, FetchLong, Pow2;
    Pow2Monotone(119, 128);
    TransferDecodes(queryId, to, from, amount);
  }

  lemma SentBurnShown(queryId: int, amount: nat, response: Option<Address>,
                      address: string, value: nat, walletType: WalletType, known: set<string>, grtype: nat)
    requires IsLong(queryId) && AddressOk(response) && amount < Pow2(119) && address in known
    requires walletType != JettonMinter
    ensures Decode(Message(true, address, value, Raw(Burn(queryId, amount, response))), walletType, known, grtype)
         == Some(([JettonDetail(address, amount, BURN, true),
                   TonDetail(address, value, None, BURN, true, queryId)], BURN))
  {
    hide Burn, FetchCoins, FetchLong, Pow2;
    Pow2Monotone(119, 128);
    BurnDecodes(queryId, amount, response);
  }
}
