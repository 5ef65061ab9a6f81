/** Pending entries of a wallet (message hashes and query ids) matched against a
    batch of transactions: TonWallet.UpdateWaitTransactions,
    TokenWallet.UpdateWaitTransactions and the two CheckQueryIdTransaction
    methods of TonUnknownWallet. */
module WaitMatching {
  import opened BitStrings
  import opened Collections
  import opened Wrappers

  /** A hash entry is a byte[] object; obj is its identity. */
  datatype Entry = Hash(obj: nat, content: seq<Byte>) | QueryId(id: int)

  /** details holds the query id of each Toncoin detail, None for any other
      detail; a single transaction has one detail, a group any number. Records
      of other types are Foreign. */
  datatype Transaction = Ton(msgHash: seq<Byte>, details: seq<Option<int>>) | Foreign

  datatype Completion = Completion(transaction: Transaction, value: Entry)

  /** What may complete an entry; only a main wallet looks at hashes. */
  predicate Matches(tx: Transaction, e: Entry, main: bool) {
    tx.Ton? &&
    match e
    case Hash(_, content) => main && content == tx.msgHash
    case QueryId(id) => id > 0 && Some(id) in tx.details
  }

  /** s without the members of gone, in the same order. */
  function Minus(s: seq<Entry>, gone: set<Entry>): (r: seq<Entry>)
    ensures forall e :: e in r <==> e in s && e !in gone
  {
    if s == [] then []
    else Minus(s[..|s| - 1], gone) + (if s[|s| - 1] in gone then [] else [s[|s| - 1]])
  }

  lemma {:induction false} MinusDistinct(s: seq<Entry>, gone: set<Entry>)
    requires Distinct(s)
    ensures Distinct(Minus(s, gone))
  {
    if s == [] {
    } else {
      MinusDistinct(s[..|s| - 1], gone);
    }
  }

  lemma {:induction false} MinusTwice(s: seq<Entry>, a: set<Entry>, b: set<Entry>)
    ensures Minus(Minus(s, a), b) == Minus(s, a + b)
  {
    if s == [] {
    } else {
      var front, last := s[..|s| - 1], s[|s| - 1];
      MinusTwice(front, a, b);
      if last in a {
        assert Minus(s, a) == Minus(front, a);
      } else {
        var m := Minus(front, a) + [last];
        assert m[..|m| - 1] == Minus(front, a);
      }
    }
  }

  lemma MinusLast(front: seq<Entry>, last: Entry, gone: set<Entry>)
    ensures Minus(front + [last], gone) == Minus(front, gone) + (if last in gone then [] else [last])
  {
    assert (front + [last])[..|front|] == front;
  }

  lemma {:induction false} MinusNone(s: seq<Entry>, gone: set<Entry>)
    requires Elements(s) !! gone
    ensures Minus(s, gone) == s
  {
    if s == [] {
    } else {
      var front, last := s[..|s| - 1], s[|s| - 1];
      assert s == front + [last] && last in Elements(s) && Elements(front) <= Elements(s);
      MinusNone(front, gone);
      MinusLast(front, last, gone);
    }
  }

  /** The entries of a transaction's own query ids. */
  function QueryEntries(details: seq<Option<int>>): set<Entry> {
    set d | d in details && d.Some? && d.value > 0 :: QueryId(d.value)
  }

  function Completed(tx: Transaction, values: seq<Entry>): seq<Completion> {
    seq(|values|, i requires 0 <= i < |values| => Completion(tx, values[i]))
  }

  lemma CompletedAppend(tx: Transaction, a: seq<Entry>, b: seq<Entry>)
    ensures Completed(tx, a + b) == Completed(tx, a) + Completed(tx, b)
  {
  }

  // ----- the result of a whole batch

  function Gone(wait: seq<Entry>, batch: seq<Transaction>, main: bool): set<Entry> {
    set e | e in wait && exists k :: 0 <= k < |batch| && Matches(batch[k], e, main)
  }

  ghost predicate FirstMatch(batch: seq<Transaction>, c: Completion, main: bool) {
    exists k :: 0 <= k < |batch| && batch[k] == c.transaction && Matches(batch[k], c.value, main)
             && forall j :: 0 <= j < k ==> !Matches(batch[j], c.value, main)
  }

  /** Exactly one completion for each entry that went, with its first match. */
  ghost predicate OneEach(log: seq<Completion>, gone: set<Entry>, batch: seq<Transaction>, main: bool) {
    && (forall i, j :: 0 <= i < j < |log| ==> log[i].value != log[j].value)
    && (forall e :: e in gone <==> exists i :: 0 <= i < |log| && log[i].value == e)
    && (forall i :: 0 <= i < |log| ==> FirstMatch(batch, log[i], main))
  }

  class Wallet {
    var wait: seq<Entry>
    /** Completions raised so far, in order. */
    var raised: seq<Completion>

    constructor ()
      ensures wait == [] && raised == []
    {
      wait, raised := [], [];
    }

    method Complete(tx: Transaction, e: Entry)
      modifies this
      ensures wait == Minus(old(wait), {e})
      ensures raised == old(raised) + [Completion(tx, e)]
    {
      wait := Minus(wait, {e});
      raised := raised + [Completion(tx, e)];
    }

    method CheckDetail(tx: Transaction, detail: Option<int>) returns (found: bool)
      modifies this
      ensures wait == Minus(old(wait), QueryEntries([detail]))
      ensures found <==> detail.Some? && detail.value > 0 && QueryId(detail.value) in old(wait)
      ensures raised == old(raised) + if found then [Completion(tx, QueryId(detail.value))] else []
    {
      found := false;
      if detail.Some? && detail.value > 0 {
        assert detail in [detail];
        assert QueryEntries([detail]) == {QueryId(detail.value)};
        var snapshot := wait;
        for i := 0 to |snapshot|
          invariant wait == snapshot && raised == old(raised)
          invariant QueryId(detail.value) !in snapshot[..i]
        {
          if snapshot[i] == QueryId(detail.value) {
            Complete(tx, snapshot[i]);
            found := true;
            return;
          }
        }
      }
      MinusNone(wait, QueryEntries([detail]));
      assert raised == old(raised) + [];
    }

    method CheckQueryIdTransaction(tx: Transaction) returns (ghost values: seq<Entry>)
      requires tx.Ton?
      modifies this
      ensures wait == Minus(old(wait), QueryEntries(tx.details))
      ensures Distinct(values) && Elements(values) == Elements(old(wait)) * QueryEntries(tx.details)
      ensures raised == old(raised) + Completed(tx, values)
    {
      hide Minus, QueryEntries, Completed;
      values := [];
      NothingRemoved(wait, raised, tx);
      for i := 0 to |tx.details|
        invariant Removed(old(wait), old(raised), wait, raised, tx, values, QueryEntries(tx.details[..i]))
      {
        ghost var now, was := wait, raised;
        var d := tx.details[i];
        var found := CheckDetail(tx, d);
        ghost var more := if found then [QueryId(d.value)] else [];
        DetailValues(tx, d, now, found);
        MoreEntries(tx.details, i);
        RemovedStep(old(wait), old(raised), now, was, wait, raised, tx, values, QueryEntries(tx.details[..i]),
                    more, QueryEntries([d]));
        values := values + more;
      }
      assert tx.details[..|tx.details|] == tx.details;
    }

    /** The inner loop of TonWallet: a snapshot of the entries, which the query
        id checks may overtake. */
    method MatchTransaction(tx: Transaction) returns (ghost values: seq<Entry>)
      requires tx.Ton? && Distinct(wait)
      modifies this
      ensures wait == Minus(old(wait), Gone(old(wait), [tx], true))
      ensures Distinct(values) && Elements(values) == Gone(old(wait), [tx], true)
      ensures raised == old(raised) + Completed(tx, values)
    {
      hide Minus, QueryEntries, Completed, Gone, Seen;
      values := [];
      var snapshot := wait;
      NothingRemoved(wait, raised, tx);
      NothingSeen(snapshot, tx);
      for i := 0 to |snapshot|
        invariant Removed(snapshot, old(raised), wait, raised, tx, values, Seen(snapshot, i, tx))
      {
        ghost var now, was := wait, raised;
        var value := snapshot[i];
        SeenStep(snapshot, i, tx);
        if value.Hash? {
          if value.content == tx.msgHash {
            Complete(tx, value);
            CompletedOne(tx, value);
            HashStillThere(snapshot, now, i, tx);
            RemovedStep(snapshot, old(raised), now, was, wait, raised, tx, values, Seen(snapshot, i, tx), [value], {value});
            values := values + [value];
          } else {
            assert Seen(snapshot, i, tx) + {} == Seen(snapshot, i, tx);
          }
        } else {
          ghost var more := CheckQueryIdTransaction(tx);
          RemovedStep(snapshot, old(raised), now, was, wait, raised, tx, values, Seen(snapshot, i, tx),
                      more, QueryEntries(tx.details));
          values := values + more;
          RemovedSame(snapshot, old(raised), wait, raised, tx, values,
                      Seen(snapshot, i, tx) + QueryEntries(tx.details), Seen(snapshot, i + 1, tx));
        }
      }
      SeenAll(snapshot, tx);
    }

    /** TonWallet.UpdateWaitTransactions. */
    method UpdateMain(latest: bool, ts: Option<seq<Transaction>>)
      requires Distinct(wait)
      modifies this
      ensures Distinct(wait)
      ensures Updated(old(wait), old(raised), wait, raised, latest, ts, true)
      ensures !latest || ts.None? ==> wait == old(wait) && raised == old(raised)
      ensures latest && ts.Some? ==> forall e :: e in wait <==>
                e in old(wait) && (forall k :: 0 <= k < |ts.value| && ts.value[k].Ton? ==>
                    && (e.Hash? ==> e.content != ts.value[k].msgHash)
                    && (e.QueryId? && e.id > 0 ==> Some(e.id) !in ts.value[k].details))
    {
      hide Progress, Gone, Minus, Completed, OneEach;
      if latest && ts.Some? {
        NothingYet(wait, raised, ts.value, true);
        WhatStays(wait, ts.value);
        ProgressWait(wait, raised, ts.value, true);
      }
      if latest && ts.Some? && |wait| > 0 {
        ghost var batch := ts.value;
        for k := 0 to |ts.value|
          invariant Progress(old(wait), old(raised), wait, raised, batch[..k], true) && Distinct(wait)
        {
          ghost var now, was := wait, raised;
          var tx := ts.value[k];
          assert batch[..k + 1] == batch[..k] + [tx];
          if tx.Ton? {
            ghost var values := MatchTransaction(tx);
            ProgressStep(old(wait), old(raised), now, was, wait, raised, batch[..k], tx, values, true);
            if |wait| == 0 {
              EarlyBreak(old(wait), old(raised), raised, batch, k + 1, true);
              return;
            }
          } else {
            ForeignStep(old(wait), old(raised), wait, raised, batch[..k], tx, true);
          }
          ProgressDistinct(old(wait), old(raised), wait, raised, batch[..k + 1], true);
        }
        assert batch[..|batch|] == batch;
      }
    }

    /** TokenWallet.UpdateWaitTransactions: query ids only. */
    method UpdateToken(latest: bool, ts: Option<seq<Transaction>>)
      requires Distinct(wait)
      modifies this
      ensures Distinct(wait)
      ensures Updated(old(wait), old(raised), wait, raised, latest, ts, false)
      ensures !latest || ts.None? ==> wait == old(wait) && raised == old(raised)
      ensures latest && ts.Some? ==> forall e :: e in wait <==>
                e in old(wait) && (forall k :: 0 <= k < |ts.value| && ts.value[k].Ton? && e.QueryId? && e.id > 0 ==>
                    Some(e.id) !in ts.value[k].details)
    {
      hide Progress, Gone, Minus, Completed, OneEach;
      if latest && ts.Some? {
        NothingYet(wait, raised, ts.value, false);
        WhatStays(wait, ts.value);
        ProgressWait(wait, raised, ts.value, false);
      }
      if latest && ts.Some? && |wait| > 0 {
        ghost var batch := ts.value;
        for k := 0 to |ts.value|
          invariant Progress(old(wait), old(raised), wait, raised, batch[..k], false) && Distinct(wait)
        {
          ghost var now, was := wait, raised;
          var tx := ts.value[k];
          assert batch[..k + 1] == batch[..k] + [tx];
          if tx.Ton? {
            ghost var values := CheckQueryIdTransaction(tx);
            TokenGone(now, tx);
            MinusSame(now, QueryEntries(tx.details), Gone(now, [tx], false));
            ProgressStep(old(wait), old(raised), now, was, wait, raised, batch[..k], tx, values, false);
          } else {
            ForeignStep(old(wait), old(raised), wait, raised, batch[..k], tx, false);
          }
          ProgressDistinct(old(wait), old(raised), wait, raised, batch[..k + 1], false);
          if |wait| == 0 {
            EarlyBreak(old(wait), old(raised), raised, batch, k + 1, false);
            return;
          }
        }
        assert batch[..|batch|] == batch;
      }
    }
  }

  // ----- within one transaction

  /** Exactly the members of gone were removed, each completed once. */
  ghost predicate Removed(all: seq<Entry>, start: seq<Completion>, wait: seq<Entry>, raised: seq<Completion>,
                          tx: Transaction, values: seq<Entry>, gone: set<Entry>) {
    && wait == Minus(all, gone)
    && Distinct(values) && Elements(values) == Elements(all) * gone
    && raised == start + Completed(tx, values)
  }

  lemma NothingRemoved(all: seq<Entry>, start: seq<Completion>, tx: Transaction)
    ensures Removed(all, start, all, start, tx, [], {})
    ensures QueryEntries([]) == {}
  {
    MinusNone(all, {});
    assert start + Completed(tx, []) == start;
  }

  lemma CompletedOne(tx: Transaction, e: Entry)
    ensures Completed(tx, [e]) == [Completion(tx, e)]
    ensures Elements([e]) == {e}
  {
  }

  /** What one detail check removes and raises. */
  lemma DetailValues(tx: Transaction, d: Option<int>, wait: seq<Entry>, found: bool)
    requires found <==> d.Some? && d.value > 0 && QueryId(d.value) in wait
    ensures var more := if found then [QueryId(d.value)] else [];
            && Elements(more) == Elements(wait) * QueryEntries([d])
            && Completed(tx, more) == if found then [Completion(tx, QueryId(d.value))] else []
  {
    assert d in [d];
    assert QueryEntries([d]) == if d.Some? && d.value > 0 then {QueryId(d.value)} else {};
  }

  lemma HashStillThere(snapshot: seq<Entry>, wait: seq<Entry>, i: nat, tx: Transaction)
    requires i < |snapshot| && tx.Ton? && snapshot[i] !in Seen(snapshot, i, tx)
    requires wait == Minus(snapshot, Seen(snapshot, i, tx))
    ensures Elements([snapshot[i]]) == Elements(wait) * {snapshot[i]}
  {
    assert snapshot[i] in wait;
  }

  lemma RemovedStep(all: seq<Entry>, start: seq<Completion>, wait: seq<Entry>, raised: seq<Completion>,
                    wait': seq<Entry>, raised': seq<Completion>, tx: Transaction,
                    values: seq<Entry>, gone: set<Entry>, more: seq<Entry>, newly: set<Entry>)
    requires Removed(all, start, wait, raised, tx, values, gone)
    requires Removed(wait, raised, wait', raised', tx, more, newly)
    ensures Removed(all, start, wait', raised', tx, values + more, gone + newly)
  {
    hide Minus, Completed;
    MinusTwice(all, gone, newly);
    CompletedAppend(tx, values, more);
    assert (start + Completed(tx, values)) + Completed(tx, more) == start + (Completed(tx, values) + Completed(tx, more));
    MinusMembers(all, gone);
    DistinctAppend(values, more, gone);
    assert Elements(values + more) == Elements(values) + Elements(more);
  }

  lemma MinusMembers(s: seq<Entry>, gone: set<Entry>)
    ensures Elements(Minus(s, gone)) == Elements(s) - gone
  {
  }

  lemma DistinctAppend(a: seq<Entry>, b: seq<Entry>, gone: set<Entry>)
    requires Distinct(a) && Distinct(b) && Elements(a) <= gone && Elements(b) !! gone
    ensures Distinct(a + b)
  {
    forall i, j | 0 <= i < j < |a + b| ensures (a + b)[i] != (a + b)[j] {
      if i < |a| <= j {
        assert a[i] in Elements(a) && b[j - |a|] in Elements(b);
      }
    }
  }

  lemma RemovedSame(all: seq<Entry>, start: seq<Completion>, wait: seq<Entry>, raised: seq<Completion>,
                    tx: Transaction, values: seq<Entry>, a: set<Entry>, b: set<Entry>)
    requires Removed(all, start, wait, raised, tx, values, a)
    requires forall e :: e in all ==> (e in a <==> e in b)
    ensures Removed(all, start, wait, raised, tx, values, b)
  {
    MinusSame(all, a, b);
    assert Elements(all) * a == Elements(all) * b;
  }

  lemma MoreEntries(details: seq<Option<int>>, i: nat)
    requires i < |details|
    ensures QueryEntries(details[..i + 1]) == QueryEntries(details[..i]) + QueryEntries([details[i]])
  {
    assert details[..i + 1] == details[..i] + [details[i]];
  }

  lemma {:induction false} MinusSame(s: seq<Entry>, a: set<Entry>, b: set<Entry>)
    requires forall e :: e in s ==> (e in a <==> e in b)
    ensures Minus(s, a) == Minus(s, b)
  {
    if s == [] {
    } else {
      MinusSame(s[..|s| - 1], a, b);
    }
  }

  /** What has gone once the first i entries of the snapshot were looked at: any
      query id entry triggers the check of all of them. */
  function Seen(snapshot: seq<Entry>, i: nat, tx: Transaction): set<Entry>
    requires i <= |snapshot| && tx.Ton?
  {
    (set e | e in snapshot[..i] && e.Hash? && e.content == tx.msgHash)
    + (if exists j :: 0 <= j < i && snapshot[j].QueryId? then Elements(snapshot) * QueryEntries(tx.details) else {})
  }

  lemma NothingSeen(snapshot: seq<Entry>, tx: Transaction)
    requires tx.Ton?
    ensures Seen(snapshot, 0, tx) == {}
  {
  }

  lemma SeenStep(snapshot: seq<Entry>, i: nat, tx: Transaction)
    requires i < |snapshot| && tx.Ton? && Distinct(snapshot)
    ensures snapshot[i].Hash? ==> snapshot[i] !in Seen(snapshot, i, tx)
    ensures snapshot[i].Hash? ==>
      Seen(snapshot, i + 1, tx) == Seen(snapshot, i, tx) + if snapshot[i].content == tx.msgHash then {snapshot[i]} else {}
    ensures snapshot[i].QueryId? ==>
      Seen(snapshot, i + 1, tx) == Seen(snapshot, i, tx) + Elements(snapshot) * QueryEntries(tx.details)
  {
    assert snapshot[..i + 1] == snapshot[..i] + [snapshot[i]];
  }

  lemma SeenAll(snapshot: seq<Entry>, tx: Transaction)
    requires tx.Ton?
    ensures Seen(snapshot, |snapshot|, tx) == Gone(snapshot, [tx], true)
    ensures Elements(snapshot) * Seen(snapshot, |snapshot|, tx) == Gone(snapshot, [tx], true)
  {
    assert snapshot[..|snapshot|] == snapshot;
    GoneOne(snapshot, tx, true);
  }

  lemma GoneOne(wait: seq<Entry>, tx: Transaction, main: bool)
    ensures forall e :: e in Gone(wait, [tx], main) <==> e in wait && Matches(tx, e, main)
  {
    forall e ensures e in Gone(wait, [tx], main) <==> e in wait && Matches(tx, e, main) {
      assert [tx][0] == tx;
    }
  }

  lemma TokenGone(wait: seq<Entry>, tx: Transaction)
    requires tx.Ton?
    ensures Gone(wait, [tx], false) == Elements(wait) * QueryEntries(tx.details)
  {
    GoneOne(wait, tx, false);
  }

  // ----- progress through the batch

  /** Where the loop stands after the transactions in done. */
  ghost predicate Progress(all: seq<Entry>, start: seq<Completion>, wait: seq<Entry>, raised: seq<Completion>,
                           done: seq<Transaction>, main: bool) {
    && wait == Minus(all, Gone(all, done, main))
    && start <= raised
    && OneEach(raised[|start|..], Gone(all, done, main), done, main)
  }

  lemma ProgressWait(all: seq<Entry>, start: seq<Completion>, batch: seq<Transaction>, main: bool)
    ensures forall w, r :: Progress(all, start, w, r, batch, main) ==> w == Minus(all, Gone(all, batch, main))
  {
  }

  /** What stays: the entries whose hash, or whose positive query id, occurs in no
      transaction; for a token wallet, query ids alone. */
  lemma WhatStays(all: seq<Entry>, batch: seq<Transaction>)
    ensures forall e :: e in Minus(all, Gone(all, batch, true)) <==>
              e in all && (forall k :: 0 <= k < |batch| && batch[k].Ton? ==>
                && (e.Hash? ==> e.content != batch[k].msgHash)
                && (e.QueryId? && e.id > 0 ==> Some(e.id) !in batch[k].details))
    ensures forall e :: e in Minus(all, Gone(all, batch, false)) <==>
              e in all && (forall k :: 0 <= k < |batch| && batch[k].Ton? && e.QueryId? && e.id > 0 ==>
                Some(e.id) !in batch[k].details)
  {
    forall e, main ensures e in Minus(all, Gone(all, batch, main)) <==>
              e in all && !(exists k :: 0 <= k < |batch| && Matches(batch[k], e, main))
    {
    }
  }

  /** The outcome of a whole call. */
  ghost predicate Updated(wait: seq<Entry>, raised: seq<Completion>, wait': seq<Entry>, raised': seq<Completion>,
                          latest: bool, ts: Option<seq<Transaction>>, main: bool) {
    if latest && ts.Some? then Progress(wait, raised, wait', raised', ts.value, main)
    else wait' == wait && raised' == raised
  }

  lemma NothingYet(wait: seq<Entry>, raised: seq<Completion>, batch: seq<Transaction>, main: bool)
    ensures Progress(wait, raised, wait, raised, batch[..0], main)
    ensures wait == [] ==> Progress(wait, raised, wait, raised, batch, main)
  {
    MinusNone(wait, {});
    assert Gone(wait, batch[..0], main) == {};
    assert wait == [] ==> Gone(wait, batch, main) == {};
  }

  lemma ProgressDistinct(all: seq<Entry>, start: seq<Completion>, wait: seq<Entry>, raised: seq<Completion>,
                         done: seq<Transaction>, main: bool)
    requires Distinct(all) && Progress(all, start, wait, raised, done, main)
    ensures Distinct(wait)
  {
    MinusDistinct(all, Gone(all, done, main));
  }

  lemma GoneStep(all: seq<Entry>, done: seq<Transaction>, tx: Transaction, main: bool)
    ensures Gone(all, done + [tx], main)
         == Gone(all, done, main) + Gone(Minus(all, Gone(all, done, main)), [tx], main)
  {
    var rest := Minus(all, Gone(all, done, main));
    GoneOne(rest, tx, main);
    forall e ensures e in Gone(all, done + [tx], main) <==> e in Gone(all, done, main) || e in Gone(rest, [tx], main) {
      if e in Gone(all, done + [tx], main) {
        var k :| 0 <= k < |done + [tx]| && Matches((done + [tx])[k], e, main);
        if k < |done| {
          assert Matches(done[k], e, main);
        }
      }
      if e in Gone(all, done, main) {
        var k :| 0 <= k < |done| && Matches(done[k], e, main);
        assert Matches((done + [tx])[k], e, main);
      }
      if e in Gone(rest, [tx], main) {
        assert Matches((done + [tx])[|done|], e, main);
      }
    }
  }

  lemma FirstMatchLater(done: seq<Transaction>, more: seq<Transaction>, c: Completion, main: bool)
    requires FirstMatch(done, c, main)
    ensures FirstMatch(done + more, c, main)
  {
    var k :| 0 <= k < |done| && done[k] == c.transaction && Matches(done[k], c.value, main)
             && forall j :: 0 <= j < k ==> !Matches(done[j], c.value, main);
    assert (done + more)[k] == done[k];
    assert forall j :: 0 <= j < k ==> (done + more)[j] == done[j];
  }

  lemma FirstMatchNow(all: seq<Entry>, done: seq<Transaction>, tx: Transaction, e: Entry, main: bool)
    requires e in all && e !in Gone(all, done, main) && Matches(tx, e, main)
    ensures FirstMatch(done + [tx], Completion(tx, e), main)
  {
    assert (done + [tx])[|done|] == tx;
    forall j | 0 <= j < |done| ensures !Matches((done + [tx])[j], e, main) {
      assert (done + [tx])[j] == done[j];
    }
  }

  lemma ValuesAppended(log: seq<Completion>, tx: Transaction, values: seq<Entry>, gone: set<Entry>)
    requires forall e :: e in gone <==> exists i :: 0 <= i < |log| && log[i].value == e
    ensures var log' := log + Completed(tx, values);
            forall e :: e in gone + Elements(values) <==> exists i :: 0 <= i < |log'| && log'[i].value == e
  {
    var log' := log + Completed(tx, values);
    forall e ensures e in gone + Elements(values) <==> exists i :: 0 <= i < |log'| && log'[i].value == e {
      if e in gone {
        var i :| 0 <= i < |log| && log[i].value == e;
        assert log'[i].value == e;
      }
      if e in values {
        var i :| 0 <= i < |values| && values[i] == e;
        assert log'[|log| + i].value == e;
      }
    }
  }

  lemma ValuesDistinct(log: seq<Completion>, tx: Transaction, values: seq<Entry>, gone: set<Entry>)
    requires forall i, j :: 0 <= i < j < |log| ==> log[i].value != log[j].value
    requires forall i :: 0 <= i < |log| ==> log[i].value in gone
    requires Distinct(values) && Elements(values) !! gone
    ensures var log' := log + Completed(tx, values);
            forall i, j :: 0 <= i < j < |log'| ==> log'[i].value != log'[j].value
  {
    var log' := log + Completed(tx, values);
    forall i, j | 0 <= i < j < |log'| ensures log'[i].value != log'[j].value {
      if i < |log| <= j {
        assert values[j - |log|] in Elements(values);
      }
    }
  }

  lemma OneEachStep(log: seq<Completion>, all: seq<Entry>, done: seq<Transaction>, tx: Transaction, values: seq<Entry>, main: bool)
    requires OneEach(log, Gone(all, done, main), done, main)
    requires Distinct(values)
    requires Elements(values) == Gone(Minus(all, Gone(all, done, main)), [tx], main)
    ensures OneEach(log + Completed(tx, values), Gone(all, done + [tx], main), done + [tx], main)
  {
    hide FirstMatch, Matches, Minus;
    var gone, log' := Gone(all, done, main), log + Completed(tx, values);
    GoneStep(all, done, tx, main);
    GoneOne(Minus(all, gone), tx, main);
    forall i | 0 <= i < |log'| ensures FirstMatch(done + [tx], log'[i], main) {
      if i < |log| {
        FirstMatchLater(done, [tx], log[i], main);
      } else {
        assert values[i - |log|] in Elements(values);
        FirstMatchNow(all, done, tx, values[i - |log|], main);
      }
    }
    ValuesAppended(log, tx, values, gone);
    ValuesDistinct(log, tx, values, gone);
  }

  lemma ProgressStep(all: seq<Entry>, start: seq<Completion>, wait: seq<Entry>, raised: seq<Completion>,
                     wait': seq<Entry>, raised': seq<Completion>,
                     done: seq<Transaction>, tx: Transaction, values: seq<Entry>, main: bool)
    requires Progress(all, start, wait, raised, done, main)
    requires wait' == Minus(wait, Gone(wait, [tx], main))
    requires Distinct(values) && Elements(values) == Gone(wait, [tx], main)
    requires raised' == raised + Completed(tx, values)
    ensures Progress(all, start, wait', raised', done + [tx], main)
  {
    hide Minus, OneEach, Completed, Gone;
    OneEachStep(raised[|start|..], all, done, tx, values, main);
    assert raised'[|start|..] == raised[|start|..] + Completed(tx, values);
    GoneStep(all, done, tx, main);
    MinusTwice(all, Gone(all, done, main), Gone(wait, [tx], main));
  }

  lemma ForeignStep(all: seq<Entry>, start: seq<Completion>, wait: seq<Entry>, raised: seq<Completion>,
                    done: seq<Transaction>, tx: Transaction, main: bool)
    requires Progress(all, start, wait, raised, done, main) && tx.Foreign?
    ensures Progress(all, start, wait, raised, done + [tx], main)
  {
    GoneOne(wait, tx, main);
    MinusNone(wait, {});
    assert Gone(wait, [tx], main) == {};
    assert raised + Completed(tx, []) == raised;
    ProgressStep(all, start, wait, raised, wait, raised, done, tx, [], main);
  }

  /** When nothing is left, the rest of the batch changes nothing. */
  lemma EarlyBreak(all: seq<Entry>, start: seq<Completion>, raised: seq<Completion>, batch: seq<Transaction>, k: nat, main: bool)
    requires k <= |batch| && Progress(all, start, [], raised, batch[..k], main)
    ensures Progress(all, start, [], raised, batch, main)
  {
    var gone := Gone(all, batch[..k], main);
    forall e | e in all ensures e in gone {
      assert e in Minus(all, gone) <==> e !in gone;
    }
    assert batch == batch[..k] + batch[k..];
    assert Gone(all, batch, main) == gone by {
      forall e | e in gone ensures e in Gone(all, batch, main) {
        var i :| 0 <= i < k && Matches(batch[..k][i], e, main);
        assert Matches(batch[i], e, main);
      }
    }
    forall i | 0 <= i < |raised[|start|..]| ensures FirstMatch(batch, raised[|start|..][i], main) {
      FirstMatchLater(batch[..k], batch[k..], raised[|start|..][i], main);
    }
  }
}
