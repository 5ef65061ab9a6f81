/** The two lists SupportContainer.W_TransactionsNew maintains: the newest
    messages and the top supports. */
module SupportLists {
  import opened Collections
  import opened Wrappers

  datatype Message = Message(id: string, time: int)

  datatype Top = Top(id: string, adapter: string, amount: real, volume: real, time: int)

  /** What the batch says about a transaction; other records of the batch are
      skipped (None). */
  datatype Transaction = Transaction(id: string, amount: real, time: int)

  type Batch = seq<Option<Transaction>>

  /** The wallet the batch comes from, the clock and the settings during one
      call, with the last market price of every adapter. */
  datatype Env = Env(adapter: string, prices: map<string, real>, minAmount: real, debug: bool, now: int, maxAge: int)

  function Price(env: Env, adapter: string): real {
    if adapter in env.prices then env.prices[adapter] else 0.0
  }

  // ----- an unspecified library sort: any sorted permutation

  ghost predicate IsOrder<T(!new)>(geq: (T, T) -> bool) {
    && (forall a, b :: geq(a, b) || geq(b, a))
    && (forall a, b, c :: geq(a, b) && geq(b, c) ==> geq(a, c))
  }

  ghost predicate SortedBy<T>(geq: (T, T) -> bool, s: seq<T>) {
    forall i, j :: 0 <= i < j < |s| ==> geq(s[i], s[j])
  }

  method Place<T(!new)>(r: seq<T>, x: T, geq: (T, T) -> bool) returns (r': seq<T>)
    requires IsOrder(geq) && SortedBy(geq, r)
    ensures SortedBy(geq, r') && multiset(r') == multiset(r) + multiset{x}
  {
    var k := |r|;
    while k > 0 && !geq(r[k - 1], x)
      invariant 0 <= k <= |r|
      invariant forall j :: k <= j < |r| ==> geq(x, r[j])
    {
      k := k - 1;
    }
    Inserted(r, geq, x, k);
    r' := r[..k] + [x] + r[k..];
  }

  method Sort<T(!new)>(s: seq<T>, geq: (T, T) -> bool) returns (r: seq<T>)
    requires IsOrder(geq)
    ensures SortedBy(geq, r) && multiset(r) == multiset(s)
  {
    r := [];
    for i := 0 to |s|
      invariant SortedBy(geq, r) && multiset(r) == multiset(s[..i])
    {
      assert s[..i + 1] == s[..i] + [s[i]];
      r := Place(r, s[i], geq);
    }
    assert s[..|s|] == s;
  }

  lemma Inserted<T(!new)>(r: seq<T>, geq: (T, T) -> bool, x: T, k: nat)
    requires IsOrder(geq) && SortedBy(geq, r) && k <= |r|
    requires k > 0 ==> geq(r[k - 1], x)
    requires forall j :: k <= j < |r| ==> geq(x, r[j])
    ensures SortedBy(geq, r[..k] + [x] + r[k..])
    ensures multiset(r[..k] + [x] + r[k..]) == multiset(r) + multiset{x}
  {
    assert r == r[..k] + r[k..];
    forall i | 0 <= i < k ensures geq(r[i], x) {
      if i < k - 1 {
        assert geq(r[i], r[k - 1]);
      }
    }
    JoinSorted(r[..k], x, r[k..], geq);
  }

  lemma JoinSorted<T(!new)>(a: seq<T>, x: T, b: seq<T>, geq: (T, T) -> bool)
    requires SortedBy(geq, a) && SortedBy(geq, b)
    requires forall i :: 0 <= i < |a| ==> geq(a[i], x)
    requires forall j :: 0 <= j < |b| ==> geq(x, b[j])
    requires forall i, j :: 0 <= i < |a| && 0 <= j < |b| ==> geq(a[i], b[j])
    ensures SortedBy(geq, a + [x] + b)
  {
  }

  predicate Newer(a: Message, b: Message) {
    a.time >= b.time
  }

  predicate Higher(a: Top, b: Top) {
    a.volume > b.volume || (a.volume == b.volume && a.time >= b.time)
  }

  /** r keeps the first limit elements of the sorted list s: nothing dropped
      ranks above anything kept. */
  ghost predicate KeepsBest<T(!new)>(geq: (T, T) -> bool, r: seq<T>, s: seq<T>, limit: nat) {
    && SortedBy(geq, r) && |r| == (if |s| < limit then |s| else limit)
    && exists dropped: seq<T> :: multiset(r + dropped) == multiset(s)
         && forall i, j :: 0 <= i < |r| && 0 <= j < |dropped| ==> geq(r[i], dropped[j])
  }

  method SortAndTruncate<T(!new)>(s: seq<T>, geq: (T, T) -> bool, limit: nat) returns (r: seq<T>)
    requires IsOrder(geq)
    ensures KeepsBest(geq, r, s, limit)
  {
    var sorted := Sort(s, geq);
    SameLength(sorted, s);
    r := sorted;
    while |r| > limit
      invariant |r| <= |sorted| && r == sorted[..|r|]
      invariant |r| == |s| || |r| >= limit
    {
      r := r[..|r| - 1];
    }
    PrefixKeepsBest(geq, sorted, s, |r|, limit);
  }

  lemma PrefixKeepsBest<T(!new)>(geq: (T, T) -> bool, sorted: seq<T>, s: seq<T>, k: nat, limit: nat)
    requires SortedBy(geq, sorted) && multiset(sorted) == multiset(s) && |sorted| == |s|
    requires k == if |s| < limit then |s| else limit
    ensures KeepsBest(geq, sorted[..k], s, limit)
  {
    var r, dropped := sorted[..k], sorted[k..];
    assert r + dropped == sorted;
    forall i, j | 0 <= i < |r| && 0 <= j < |dropped| ensures geq(r[i], dropped[j]) {
      assert geq(sorted[i], sorted[k + j]);
    }
  }

  lemma SameLength<T>(a: seq<T>, b: seq<T>)
    requires multiset(a) == multiset(b)
    ensures |a| == |b|
  {
    assert |multiset(a)| == |multiset(b)|;
  }

  // ----- the newest messages

  predicate DistinctIds(s: seq<Message>) {
    forall i, j :: 0 <= i < j < |s| ==> s[i].id != s[j].id
  }

  predicate HasId(s: seq<Message>, id: string) {
    exists i :: 0 <= i < |s| && s[i].id == id
  }

  predicate Qualifies(env: Env, tx: Transaction) {
    env.now - tx.time <= env.maxAge && (tx.amount >= env.minAmount || env.debug)
  }

  function OfferMessage(list: seq<Message>, env: Env, tx: Transaction): seq<Message> {
    if Qualifies(env, tx) && !HasId(list, env.adapter + tx.id)
    then list + [Message(env.adapter + tx.id, tx.time)]
    else list
  }

  /** The list after the batch, last record first, before sorting. */
  function Accepted(list: seq<Message>, env: Env, batch: Batch): seq<Message>
    decreases |batch|
  {
    if batch == [] then list
    else
      var record := batch[|batch| - 1];
      Accepted(if record.Some? then OfferMessage(list, env, record.value) else list, env, batch[..|batch| - 1])
  }

  lemma {:induction false} AcceptedGrows(list: seq<Message>, env: Env, batch: Batch)
    requires DistinctIds(list)
    ensures list <= Accepted(list, env, batch) && DistinctIds(Accepted(list, env, batch))
    decreases |batch|
  {
    if batch == [] {
    } else {
      var record := batch[|batch| - 1];
      AcceptedGrows(if record.Some? then OfferMessage(list, env, record.value) else list, env, batch[..|batch| - 1]);
    }
  }

  /** m is the message of a record that is young enough and large enough. */
  ghost predicate FromRecord(m: Message, env: Env, batch: Batch) {
    exists i :: 0 <= i < |batch| && IsMessageOf(m, env, batch[i])
  }

  predicate IsMessageOf(m: Message, env: Env, record: Option<Transaction>) {
    && record.Some? && env.now - record.value.time <= env.maxAge
    && (record.value.amount >= env.minAmount || env.debug)
    && m.id == env.adapter + record.value.id && m.time == record.value.time
  }

  /** Nothing but such messages is added. */
  lemma {:induction false} AcceptedOnlyRecords(list: seq<Message>, env: Env, batch: Batch)
    ensures forall m :: m in Accepted(list, env, batch) ==> m in list || FromRecord(m, env, batch)
    decreases |batch|
  {
    if batch == [] {
    } else {
      var front, record := batch[..|batch| - 1], batch[|batch| - 1];
      var list' := if record.Some? then OfferMessage(list, env, record.value) else list;
      AcceptedOnlyRecords(list', env, front);
      forall m | m in Accepted(list, env, batch) && m !in list ensures FromRecord(m, env, batch) {
        if m in list' {
          assert IsMessageOf(m, env, batch[|batch| - 1]);
        } else {
          var i :| 0 <= i < |front| && IsMessageOf(m, env, front[i]);
          assert IsMessageOf(m, env, batch[i]);
        }
      }
    }
  }

  /** And each of them is, unless its id is there already. */
  lemma {:induction false} AcceptedAllRecords(list: seq<Message>, env: Env, batch: Batch, i: nat)
    requires i < |batch| && batch[i].Some? && DistinctIds(list)
    requires env.now - batch[i].value.time <= env.maxAge
    requires batch[i].value.amount >= env.minAmount || env.debug
    ensures exists m :: m in Accepted(list, env, batch) && m.id == env.adapter + batch[i].value.id
    decreases |batch|
  {
    var n := |batch| - 1;
    var list' := if batch[n].Some? then OfferMessage(list, env, batch[n].value) else list;
    if i == n {
      AcceptedGrows(list', env, batch[..n]);
      var id := env.adapter + batch[i].value.id;
      var j :| 0 <= j < |list'| && list'[j].id == id;
      assert list'[j] in Accepted(list, env, batch);
    } else {
      AcceptedAllRecords(list', env, batch[..n], i);
    }
  }

  /** Each message of history is kept, or the list is full of messages that are
      at least as new. */
  ghost predicate NewestOf(list: seq<Message>, history: set<Message>, limit: nat) {
    && |list| <= limit && DistinctIds(list) && SortedBy(Newer, list)
    && (forall k :: k in list ==> k in history)
    && (forall m :: m in history && m !in list ==> |list| == limit && forall k :: k in list ==> Newer(k, m))
  }

  lemma {:induction false} DistinctCount(s: seq<Message>)
    requires DistinctIds(s)
    ensures |Elements(s)| == |s|
  {
    if s == [] {
    } else {
      var front, last := s[..|s| - 1], s[|s| - 1];
      DistinctCount(front);
      assert last !in front;
      assert Elements(s) == Elements(front) + {last};
    }
  }

  lemma SplitMembers<T(!new)>(r: seq<T>, dropped: seq<T>, s: seq<T>)
    requires multiset(r + dropped) == multiset(s)
    ensures forall m :: m in s <==> m in r || m in dropped
  {
    forall m ensures m in s <==> m in r || m in dropped {
      assert m in s <==> m in multiset(s);
      assert m in r + dropped <==> m in multiset(r + dropped);
    }
  }

  lemma SubListDistinct(r: seq<Message>, dropped: seq<Message>, s: seq<Message>)
    requires DistinctIds(s) && multiset(r + dropped) == multiset(s)
    ensures DistinctIds(r)
    ensures forall m :: m in s <==> m in r || m in dropped
  {
    SplitMembers(r, dropped, s);
    forall i, j | 0 <= i < j < |r| ensures r[i].id != r[j].id {
      assert r[i] in s && r[j] in s;
      if r[i] == r[j] {
        TwiceInList(r + dropped, i, j);
        OnceInList(s, r[i]);
      }
    }
  }

  lemma TwiceInList<T>(s: seq<T>, i: nat, j: nat)
    requires i < j < |s| && s[i] == s[j]
    ensures multiset(s)[s[i]] >= 2
  {
    assert s == s[..i] + [s[i]] + s[i + 1..j] + [s[j]] + s[j + 1..];
  }

  lemma {:induction false} OnceInList(s: seq<Message>, m: Message)
    requires DistinctIds(s)
    ensures multiset(s)[m] <= 1
  {
    if s == [] {
    } else {
      var front, last := s[..|s| - 1], s[|s| - 1];
      assert s == front + [last];
      OnceInList(front, m);
      if m == last {
        assert m !in front;
      }
    }
  }

  /** If a full list of distinct messages gained a member without growing, it
      lost one. */
  lemma SomethingWasDropped(old': seq<Message>, new': seq<Message>, k: Message)
    requires DistinctIds(old') && DistinctIds(new') && |old'| == |new'|
    requires k in new' && k !in old'
    ensures exists l :: l in old' && l !in new'
  {
    DistinctCount(old');
    DistinctCount(new');
    if forall l :: l in old' ==> l in new' {
      assert Elements(old') < Elements(new') by {
        assert k in Elements(new') && k !in Elements(old');
      }
      SubsetSmaller(Elements(old'), Elements(new'));
      assert false;
    }
  }

  lemma SubsetSmaller(a: set<Message>, b: set<Message>)
    requires a < b
    ensures |a| < |b|
  {
    assert b == a + (b - a);
    assert |b| == |a| + |b - a|;
    assert b - a != {};
  }

  /** One batch keeps the list the newest of everything accepted so far. */
  lemma BatchKeepsNewest(list: seq<Message>, history: set<Message>, merged: seq<Message>, r: seq<Message>, limit: nat)
    requires NewestOf(list, history, limit)
    requires list <= merged && DistinctIds(merged)
    requires KeepsBest(Newer, r, merged, limit)
    ensures NewestOf(r, history + Elements(merged), limit)
  {
    var dropped :| multiset(r + dropped) == multiset(merged)
      && forall i, j :: 0 <= i < |r| && 0 <= j < |dropped| ==> Newer(r[i], dropped[j]);
    SubListDistinct(r, dropped, merged);
    assert |merged| == |r| + |dropped| by {
      SameLength(r + dropped, merged);
    }
    forall m | m in history + Elements(merged) && m !in r
      ensures |r| == limit && forall k :: k in r ==> Newer(k, m)
    {
      if m in merged {
        assert m in dropped;
      } else {
        assert m !in list;
        forall k | k in r ensures Newer(k, m) {
          OlderThanKept(list, merged, r, dropped, k, m);
        }
      }
    }
  }

  lemma OlderThanKept(list: seq<Message>, merged: seq<Message>, r: seq<Message>, dropped: seq<Message>, k: Message, m: Message)
    requires DistinctIds(list) && DistinctIds(r) && |r| == |list| && k in r
    requires forall x :: x in list ==> Newer(x, m)
    requires forall x :: x in list ==> x in r || x in dropped
    requires forall i, j :: 0 <= i < |r| && 0 <= j < |dropped| ==> Newer(r[i], dropped[j])
    ensures Newer(k, m)
  {
    if k !in list {
      SomethingWasDropped(list, r, k);
      var l :| l in list && l !in r;
      assert Newer(k, l);
    }
  }

  // ----- the top supports

  predicate DistinctTops(s: seq<Top>) {
    forall i, j :: 0 <= i < j < |s| ==> s[i].id != s[j].id
  }

  predicate HasTop(s: seq<Top>, id: string) {
    exists i :: 0 <= i < |s| && s[i].id == id
  }

  function AtCurrentPrice(t: Top, env: Env): Top {
    t.(volume := t.amount * Price(env, t.adapter))
  }

  /** An aged support leaves, any other is revalued. */
  function RevaluedEntry(t: Top, env: Env): seq<Top> {
    if env.now - t.time > env.maxAge then [] else [AtCurrentPrice(t, env)]
  }

  function Revalued(tops: seq<Top>, env: Env): seq<Top> {
    if tops == [] then []
    else Revalued(tops[..|tops| - 1], env) + RevaluedEntry(tops[|tops| - 1], env)
  }

  /** Whether a donation is listed: only if it beats the last entry, however
      much room there is. */
  predicate Beats(env: Env, tx: Transaction, last: Top) {
    if last.adapter == env.adapter
    then tx.amount > last.amount || (tx.amount == last.amount && tx.time > last.time)
    else
      var tvolume, volume := tx.amount * Price(env, env.adapter), last.amount * Price(env, env.adapter);
      tvolume > volume || (tvolume == volume && tx.time > last.time)
  }

  function TopOf(env: Env, tx: Transaction): Top {
    Top(env.adapter + tx.id, env.adapter, tx.amount, tx.amount * Price(env, env.adapter), tx.time)
  }

  /** Comparing with the last entry of another adapter revalues that entry. */
  function Compared(tops: seq<Top>, env: Env): seq<Top> {
    if tops == [] || tops[|tops| - 1].adapter == env.adapter then tops
    else
      var last := tops[|tops| - 1];
      tops[|tops| - 1 := last.(volume := last.amount * Price(env, env.adapter))]
  }

  function OfferTop(tops: seq<Top>, env: Env, tx: Transaction): seq<Top> {
    if !Qualifies(env, tx) || HasTop(tops, env.adapter + tx.id) then tops
    else
      var tops' := Compared(tops, env);
      if tops == [] || Beats(env, tx, tops[|tops| - 1]) then tops' + [TopOf(env, tx)] else tops'
  }

  function OfferRecord(tops: seq<Top>, env: Env, record: Option<Transaction>): seq<Top> {
    if record.Some? then OfferTop(tops, env, record.value) else tops
  }

  function Listed(tops: seq<Top>, env: Env, batch: Batch): seq<Top>
    decreases |batch|
  {
    if batch == [] then tops
    else Listed(OfferRecord(tops, env, batch[|batch| - 1]), env, batch[..|batch| - 1])
  }

  lemma RevaluedStep(tops: seq<Top>, env: Env, i: nat)
    requires i < |tops|
    ensures Revalued(tops[..i + 1], env) == Revalued(tops[..i], env) + RevaluedEntry(tops[i], env)
  {
    var front := tops[..i + 1];
    assert front[..|front| - 1] == tops[..i] && front[|front| - 1] == tops[i];
  }

  lemma {:induction false} RevaluedDistinct(tops: seq<Top>, env: Env)
    requires DistinctTops(tops)
    ensures DistinctTops(Revalued(tops, env))
    ensures forall t :: t in Revalued(tops, env) ==> HasTop(tops, t.id)
  {
    if tops == [] {
    } else {
      RevaluedDistinct(tops[..|tops| - 1], env);
    }
  }

  /** Revaluing goes entry by entry, in order. */
  lemma {:induction false} RevaluedAppend(a: seq<Top>, b: seq<Top>, env: Env)
    ensures Revalued(a + b, env) == Revalued(a, env) + Revalued(b, env)
    decreases |b|
  {
    if b == [] {
      assert a + b == a;
    } else {
      var front := b[..|b| - 1];
      assert (a + b)[..|a + b| - 1] == a + front && (a + b)[|a + b| - 1] == b[|b| - 1];
      RevaluedAppend(a, front, env);
      assert Revalued(a + b, env) == (Revalued(a, env) + Revalued(front, env)) + RevaluedEntry(b[|b| - 1], env);
    }
  }

  /** t is the entry o at the price its own adapter has now. */
  predicate IsRevalued(t: Top, o: Top, env: Env) {
    && t.id == o.id && t.adapter == o.adapter && t.amount == o.amount && t.time == o.time
    && env.now - o.time <= env.maxAge
    && t.volume == if o.adapter in env.prices then o.amount * env.prices[o.adapter] else 0.0
  }

  /** What is left are the young entries, each at its own adapter's price. */
  lemma {:induction false} RevaluedMembers(tops: seq<Top>, env: Env)
    ensures forall t :: t in Revalued(tops, env) <==> exists o :: o in tops && IsRevalued(t, o, env)
  {
    if tops == [] {
    } else {
      var front, last := tops[..|tops| - 1], tops[|tops| - 1];
      RevaluedMembers(front, env);
      assert tops == front + [last];
      forall t ensures t in RevaluedEntry(last, env) <==> IsRevalued(t, last, env) {
        assert last.amount * 0.0 == 0.0;
        var now := AtCurrentPrice(last, env);
        assert now == Top(last.id, last.adapter, last.amount, now.volume, last.time);
        assert IsRevalued(t, last, env) ==> t == now;
      }
      forall t ensures t in Revalued(tops, env) <==> exists o :: o in tops && IsRevalued(t, o, env) {
        if t in Revalued(front, env) {
          var o :| o in front && IsRevalued(t, o, env);
          assert o in tops;
        } else if t in RevaluedEntry(last, env) {
          assert last in tops;
        }
      }
    }
  }

  lemma {:induction false} ListedDistinct(tops: seq<Top>, env: Env, batch: Batch)
    requires DistinctTops(tops)
    ensures DistinctTops(Listed(tops, env, batch))
    decreases |batch|
  {
    if batch == [] {
    } else {
      ListedDistinct(OfferRecord(tops, env, batch[|batch| - 1]), env, batch[..|batch| - 1]);
    }
  }

  // ----- which donations of a batch are listed

  /** The order the list is meant to follow, between donations of one adapter. */
  predicate Exceeds(a: Transaction, b: Transaction) {
    a.amount > b.amount || (a.amount == b.amount && a.time > b.time)
  }

  predicate ExceedsEntry(a: Transaction, t: Top) {
    a.amount > t.amount || (a.amount == t.amount && a.time > t.time)
  }

  /** The record may be listed at all. */
  predicate Offered(tops: seq<Top>, env: Env, record: Option<Transaction>) {
    record.Some? && Qualifies(env, record.value) && !HasTop(tops, env.adapter + record.value.id)
  }

  predicate BeatsLast(tops: seq<Top>, env: Env, tx: Transaction) {
    tops == [] || Beats(env, tx, tops[|tops| - 1])
  }

  /** A transaction occurs once in a batch. */
  predicate DistinctRecords(batch: Batch) {
    forall i, j :: 0 <= i < j < |batch| && batch[i].Some? && batch[j].Some? ==> batch[i].value.id != batch[j].value.id
  }

  /** No offered record between k and end, which are processed before k, is as
      high as k. */
  predicate ExceedsEarlier(tops: seq<Top>, env: Env, batch: Batch, k: nat, end: nat)
    requires k < end <= |batch| && batch[k].Some?
  {
    forall j :: k < j < end && Offered(tops, env, batch[j]) ==> Exceeds(batch[k].value, batch[j].value)
  }

  lemma SameIdSameTail(adapter: string, a: string, b: string)
    requires adapter + a == adapter + b
    ensures a == b
  {
    assert a == (adapter + a)[|adapter|..];
    assert b == (adapter + b)[|adapter|..];
  }

  lemma SamePriceOrder(a: real, b: real, price: real)
    requires price > 0.0
    ensures a * price > b * price <==> a > b
  {
    if a > b {
      assert (a - b) * price > 0.0;
    } else if a < b {
      assert (b - a) * price > 0.0;
    }
  }

  /** With a price, or within one adapter, "beats" is the order of amount and
      time: both volumes are taken at the price of the batch. */
  lemma BeatsIsExceeds(env: Env, tx: Transaction, last: Top)
    requires last.adapter == env.adapter || Price(env, env.adapter) > 0.0
    ensures Beats(env, tx, last) <==> ExceedsEntry(tx, last)
  {
    if last.adapter != env.adapter {
      SamePriceOrder(tx.amount, last.amount, Price(env, env.adapter));
      SamePriceOrder(last.amount, tx.amount, Price(env, env.adapter));
    }
  }

  lemma HasTopAppend(s: seq<Top>, t: Top, id: string)
    ensures HasTop(s + [t], id) <==> HasTop(s, id) || t.id == id
  {
    assert (s + [t])[|s|] == t;
    if HasTop(s, id) {
      var i :| 0 <= i < |s| && s[i].id == id;
      assert (s + [t])[i] == s[i];
    }
  }

  lemma HasTopCompared(s: seq<Top>, env: Env, id: string)
    ensures HasTop(Compared(s, env), id) <==> HasTop(s, id)
  {
    var c := Compared(s, env);
    assert |c| == |s| && forall i :: 0 <= i < |s| ==> c[i].id == s[i].id;
  }

  /** One record changes membership only for its own id, and exactly if it is
      offered and beats the last entry. */
  lemma OfferMembers(tops: seq<Top>, env: Env, record: Option<Transaction>, id: string)
    ensures HasTop(OfferRecord(tops, env, record), id) <==>
              HasTop(tops, id)
              || (Offered(tops, env, record) && BeatsLast(tops, env, record.value) && env.adapter + record.value.id == id)
  {
    if Offered(tops, env, record) {
      HasTopCompared(tops, env, id);
      HasTopAppend(Compared(tops, env), TopOf(env, record.value), id);
    }
  }

  /** Whatever else a batch brings, it takes nothing out and lists only its own
      records. */
  lemma {:induction false} ListedMembers(tops: seq<Top>, env: Env, batch: Batch, id: string)
    requires forall i :: 0 <= i < |batch| && batch[i].Some? ==> env.adapter + batch[i].value.id != id
    ensures HasTop(Listed(tops, env, batch), id) <==> HasTop(tops, id)
    decreases |batch|
  {
    if batch == [] {
    } else {
      OfferMembers(tops, env, batch[|batch| - 1], id);
      ListedMembers(OfferRecord(tops, env, batch[|batch| - 1]), env, batch[..|batch| - 1], id);
    }
  }

  /** What becomes of the first processed record itself. */
  lemma LastRecordListed(tops: seq<Top>, env: Env, batch: Batch)
    requires batch != [] && DistinctRecords(batch) && Offered(tops, env, batch[|batch| - 1])
    ensures var tx := batch[|batch| - 1].value;
            HasTop(Listed(tops, env, batch), env.adapter + tx.id) <==> BeatsLast(tops, env, tx)
  {
    var n := |batch| - 1;
    var id := env.adapter + batch[n].value.id;
    OfferMembers(tops, env, batch[n], id);
    if BeatsLast(tops, env, batch[n].value) {
      StaysListed(OfferRecord(tops, env, batch[n]), env, batch[..n], id);
    } else {
      forall i | 0 <= i < n && batch[i].Some? ensures env.adapter + batch[i].value.id != id {
        if env.adapter + batch[i].value.id == id {
          SameIdSameTail(env.adapter, batch[i].value.id, batch[n].value.id);
        }
      }
      ListedMembers(OfferRecord(tops, env, batch[n]), env, batch[..n], id);
    }
  }

  lemma {:induction false} StaysListed(tops: seq<Top>, env: Env, batch: Batch, id: string)
    requires HasTop(tops, id)
    ensures HasTop(Listed(tops, env, batch), id)
    decreases |batch|
  {
    if batch == [] {
    } else {
      OfferMembers(tops, env, batch[|batch| - 1], id);
      StaysListed(OfferRecord(tops, env, batch[|batch| - 1]), env, batch[..|batch| - 1], id);
    }
  }

  /** Offering one record leaves every other record as offered as it was. */
  lemma OfferedAfter(tops: seq<Top>, env: Env, batch: Batch, k: nat)
    requires DistinctRecords(batch) && k < |batch| - 1
    ensures Offered(OfferRecord(tops, env, batch[|batch| - 1]), env, batch[k]) <==> Offered(tops, env, batch[k])
  {
    var record := batch[|batch| - 1];
    if batch[k].Some? {
      OfferMembers(tops, env, record, env.adapter + batch[k].value.id);
      if record.Some? && env.adapter + record.value.id == env.adapter + batch[k].value.id {
        SameIdSameTail(env.adapter, record.value.id, batch[k].value.id);
      }
    }
  }

  /** t is the entry of a record that is young enough and large enough. */
  predicate IsEntryOf(t: Top, env: Env, record: Option<Transaction>) {
    && record.Some? && env.now - record.value.time <= env.maxAge
    && (record.value.amount >= env.minAmount || env.debug)
    && t.id == env.adapter + record.value.id && t.adapter == env.adapter
    && t.amount == record.value.amount && t.time == record.value.time
    && t.volume == if env.adapter in env.prices then t.amount * env.prices[env.adapter] else 0.0
  }

  /** What stands at the end of the list when a record is offered, and of another
      adapter, is revalued at the price of the batch instead of its own. */
  predicate Repriced(t: Top, o: Top, env: Env) {
    t == o.(volume := if env.adapter in env.prices then o.amount * env.prices[env.adapter] else 0.0)
  }

  predicate AnyOffered(tops: seq<Top>, env: Env, batch: Batch) {
    exists k :: 0 <= k < |batch| && Offered(tops, env, batch[k])
  }

  ghost predicate EntryOfBatch(t: Top, env: Env, batch: Batch) {
    exists k :: 0 <= k < |batch| && IsEntryOf(t, env, batch[k])
  }

  /** r has the entries of tops, of which only the last may have been repriced,
      and then entries of records. */
  ghost predicate Extended(tops: seq<Top>, r: seq<Top>, env: Env, batch: Batch, offered: bool) {
    var n := |tops|;
    && |r| >= n
    && (forall i :: 0 <= i < n - 1 ==> r[i] == tops[i])
    && (n > 0 ==> if tops[n - 1].adapter != env.adapter && offered
                  then Repriced(r[n - 1], tops[n - 1], env)
                  else r[n - 1] == tops[n - 1])
    && (forall i :: n <= i < |r| ==> EntryOfBatch(r[i], env, batch))
  }

  /** What listing a batch does to the entries: those that were there stay as
      they are, except that the last one is repriced exactly when it is of another
      adapter and at least one record is offered; the others are entries of
      records. */
  lemma {:induction false} ListedEntries(tops: seq<Top>, env: Env, batch: Batch)
    requires DistinctRecords(batch)
    ensures Extended(tops, Listed(tops, env, batch), env, batch, AnyOffered(tops, env, batch))
    decreases |batch|
  {
    hide Offered, OfferRecord, EntryOfBatch, Repriced, Extended;
    if batch == [] {
      NotExtended(tops, env);
    } else {
      var last, front := |batch| - 1, batch[..|batch| - 1];
      var tops' := OfferRecord(tops, env, batch[last]);
      ListedEntries(tops', env, front);
      OfferedEntries(tops, env, batch[last]);
      forall j | 0 <= j < last ensures Offered(tops', env, front[j]) <==> Offered(tops, env, batch[j]) {
        OfferedAfter(tops, env, batch, j);
      }
      assert AnyOffered(tops, env, batch) <==> AnyOffered(tops', env, front) || Offered(tops, env, batch[last]);
      ExtendedTwice(tops, tops', Listed(tops', env, front), env, batch, Offered(tops, env, batch[last]), AnyOffered(tops', env, front));
    }
  }

  lemma NotExtended(tops: seq<Top>, env: Env)
    ensures Extended(tops, tops, env, [], false)
  {
  }

  /** One record either leaves the length or appends its own entry. */
  lemma OfferedEntries(tops: seq<Top>, env: Env, record: Option<Transaction>)
    ensures Extended(tops, OfferRecord(tops, env, record), env, [record], Offered(tops, env, record))
    ensures |OfferRecord(tops, env, record)| > |tops| ==>
              Offered(tops, env, record) && OfferRecord(tops, env, record)[|OfferRecord(tops, env, record)| - 1].adapter == env.adapter
  {
    var r := OfferRecord(tops, env, record);
    if |r| > |tops| {
      assert IsEntryOf(r[|tops|], env, [record][0]);
    }
  }

  lemma ExtendedTwice(a: seq<Top>, b: seq<Top>, c: seq<Top>, env: Env, batch: Batch, first: bool, more: bool)
    requires batch != []
    requires Extended(a, b, env, [batch[|batch| - 1]], first) && Extended(b, c, env, batch[..|batch| - 1], more)
    requires |b| > |a| ==> first && b[|b| - 1].adapter == env.adapter
    ensures Extended(a, c, env, batch, first || more)
  {
    var last := |batch| - 1;
    forall i | |a| <= i < |c| ensures EntryOfBatch(c[i], env, batch) {
      if i < |b| {
        assert c[i] == b[i] && EntryOfBatch(b[i], env, [batch[last]]);
        assert IsEntryOf(b[i], env, batch[last]);
      } else {
        var k :| 0 <= k < last && IsEntryOf(c[i], env, batch[..last][k]);
        assert IsEntryOf(c[i], env, batch[k]);
      }
    }
  }

  predicate Comparable(tops: seq<Top>, env: Env) {
    tops == [] || tops[|tops| - 1].adapter == env.adapter || Price(env, env.adapter) > 0.0
  }

  /** The last entry after one record: the record itself, or the entry it did not
      beat, whose volume alone may have changed. */
  lemma LastAfter(tops: seq<Top>, env: Env, record: Option<Transaction>)
    ensures var tops' := OfferRecord(tops, env, record);
            if Offered(tops, env, record) && BeatsLast(tops, env, record.value)
            then tops' != [] && tops'[|tops'| - 1] == TopOf(env, record.value)
            else |tops'| == |tops| && (tops != [] ==>
              var l, l' := tops[|tops| - 1], tops'[|tops| - 1];
              l'.adapter == l.adapter && l'.amount == l.amount && l'.time == l.time)
  {
  }

  /** Beating the list after a record is beating the list before it and exceeding
      the record, if it was offered. */
  lemma BeatsChain(tops: seq<Top>, env: Env, record: Option<Transaction>, tx: Transaction)
    requires Comparable(tops, env)
    ensures Comparable(OfferRecord(tops, env, record), env)
    ensures BeatsLast(OfferRecord(tops, env, record), env, tx) <==>
              BeatsLast(tops, env, tx) && (Offered(tops, env, record) ==> Exceeds(tx, record.value))
  {
    LastAfter(tops, env, record);
    var tops' := OfferRecord(tops, env, record);
    if tops != [] {
      BeatsIsExceeds(env, tx, tops[|tops| - 1]);
      if record.Some? {
        BeatsIsExceeds(env, record.value, tops[|tops| - 1]);
      }
    }
    if tops' != [] {
      BeatsIsExceeds(env, tx, tops'[|tops'| - 1]);
    }
  }

  /** Which donations of a batch are listed, exactly: those that beat the entry
      the list ended with and exceed every older donation of the batch, that
      is, the successive records in time. Room in the list plays no part. */
  lemma {:induction false} ListedIff(tops: seq<Top>, env: Env, batch: Batch, k: nat)
    requires Comparable(tops, env) && DistinctRecords(batch)
    requires k < |batch| && Offered(tops, env, batch[k])
    ensures HasTop(Listed(tops, env, batch), env.adapter + batch[k].value.id) <==>
              BeatsLast(tops, env, batch[k].value) && ExceedsEarlier(tops, env, batch, k, |batch|)
    decreases |batch|
  {
    assert batch[k].Some?;
    hide Offered, BeatsLast, OfferRecord, HasTop, Exceeds, Comparable;
    var n := |batch| - 1;
    if k == n {
      LastRecordListed(tops, env, batch);
    } else {
      var front, tops' := batch[..n], OfferRecord(tops, env, batch[n]);
      forall j | 0 <= j < n ensures Offered(tops', env, front[j]) <==> Offered(tops, env, batch[j]) {
        OfferedAfter(tops, env, batch, j);
      }
      BeatsChain(tops, env, batch[n], batch[k].value);
      ListedIff(tops', env, front, k);
      assert ExceedsEarlier(tops', env, front, k, n) <==> ExceedsEarlier(tops, env, batch, k, n);
    }
  }

  /** f is the first processed record that beats the entry the list ends with. */
  predicate Opens(tops: seq<Top>, env: Env, batch: Batch, f: nat)
    requires f < |batch|
  {
    && Offered(tops, env, batch[f]) && BeatsLast(tops, env, batch[f].value)
    && forall j :: f < j < |batch| && Offered(tops, env, batch[j]) ==> !BeatsLast(tops, env, batch[j].value)
  }

  lemma OpenedList(tops: seq<Top>, env: Env, record: Option<Transaction>, tx: Transaction)
    requires Offered(tops, env, record) && BeatsLast(tops, env, record.value)
    ensures Comparable(OfferRecord(tops, env, record), env)
    ensures BeatsLast(OfferRecord(tops, env, record), env, tx) <==> Exceeds(tx, record.value)
  {
    LastAfter(tops, env, record);
  }

  lemma UnbeatenLast(tops: seq<Top>, env: Env, record: Option<Transaction>, tx: Transaction)
    requires !(Offered(tops, env, record) && BeatsLast(tops, env, record.value))
    ensures BeatsLast(OfferRecord(tops, env, record), env, tx) <==> BeatsLast(tops, env, tx)
  {
    LastAfter(tops, env, record);
  }

  /** When the first processed record opens, it is the only one that does. */
  lemma OpenedAtEnd(tops: seq<Top>, env: Env, batch: Batch, k: nat)
    requires k < |batch| - 1 && batch[k].Some?
    requires Offered(tops, env, batch[|batch| - 1]) && BeatsLast(tops, env, batch[|batch| - 1].value)
    ensures (exists f :: k <= f < |batch| && Opens(tops, env, batch, f) && ExceedsEarlier(tops, env, batch, k, f + 1)) <==>
            Exceeds(batch[k].value, batch[|batch| - 1].value) && ExceedsEarlier(tops, env, batch, k, |batch| - 1)
  {
    hide BeatsLast, Exceeds, HasTop, Qualifies;
    var n := |batch| - 1;
    assert Opens(tops, env, batch, n);
    assert forall f :: k <= f < n ==> !Opens(tops, env, batch, f);
    assert ExceedsEarlier(tops, env, batch, k, n + 1) <==>
      Exceeds(batch[k].value, batch[n].value) && ExceedsEarlier(tops, env, batch, k, n);
  }

  lemma SameOpenings(tops: seq<Top>, env: Env, batch: Batch, tops': seq<Top>, k: nat)
    requires k < |batch| - 1 && batch[k].Some?
    requires !(Offered(tops, env, batch[|batch| - 1]) && BeatsLast(tops, env, batch[|batch| - 1].value))
    requires forall tx: Transaction :: BeatsLast(tops', env, tx) <==> BeatsLast(tops, env, tx)
    requires forall j :: 0 <= j < |batch| - 1 ==> (Offered(tops', env, batch[j]) <==> Offered(tops, env, batch[j]))
    ensures var front := batch[..|batch| - 1];
            (exists f :: k <= f < |front| && Opens(tops', env, front, f) && ExceedsEarlier(tops', env, front, k, f + 1)) <==>
            (exists f :: k <= f < |batch| && Opens(tops, env, batch, f) && ExceedsEarlier(tops, env, batch, k, f + 1))
  {
    hide BeatsLast, Exceeds;
    var n := |batch| - 1;
    var front := batch[..n];
    assert !Opens(tops, env, batch, n);
    forall f | k <= f < n
      ensures Opens(tops', env, front, f) <==> Opens(tops, env, batch, f)
      ensures ExceedsEarlier(tops', env, front, k, f + 1) <==> ExceedsEarlier(tops, env, batch, k, f + 1)
    {
    }
  }

  /** The same without any assumption about the last entry, so also when it is of
      another adapter and the batch has no price: the first donation to beat it is
      listed, and from then on those that exceed every donation since. */
  lemma {:induction false} ListedIffOpened(tops: seq<Top>, env: Env, batch: Batch, k: nat)
    requires DistinctRecords(batch)
    requires k < |batch| && Offered(tops, env, batch[k])
    ensures HasTop(Listed(tops, env, batch), env.adapter + batch[k].value.id) <==>
              exists f :: k <= f < |batch| && Opens(tops, env, batch, f) && ExceedsEarlier(tops, env, batch, k, f + 1)
    decreases |batch|
  {
    var n := |batch| - 1;
    assert batch[k].Some? && (Offered(tops, env, batch[n]) ==> batch[n].Some?);
    hide Offered, BeatsLast, OfferRecord, HasTop, Exceeds;
    if k == n {
      LastRecordListed(tops, env, batch);
      assert Opens(tops, env, batch, n) <==> BeatsLast(tops, env, batch[n].value);
      assert ExceedsEarlier(tops, env, batch, n, n + 1);
    } else {
      var front, tops' := batch[..n], OfferRecord(tops, env, batch[n]);
      forall j | 0 <= j < n ensures Offered(tops', env, front[j]) <==> Offered(tops, env, batch[j]) {
        OfferedAfter(tops, env, batch, j);
      }
      assert ExceedsEarlier(tops', env, front, k, n) <==> ExceedsEarlier(tops, env, batch, k, n);
      if Offered(tops, env, batch[n]) && BeatsLast(tops, env, batch[n].value) {
        OpenedList(tops, env, batch[n], batch[k].value);
        ListedIff(tops', env, front, k);
        OpenedAtEnd(tops, env, batch, k);
      } else {
        forall tx: Transaction ensures BeatsLast(tops', env, tx) <==> BeatsLast(tops, env, tx) {
          UnbeatenLast(tops, env, batch[n], tx);
        }
        ListedIffOpened(tops', env, front, k);
        SameOpenings(tops, env, batch, tops', k);
      }
    }
  }

  /** With room, sorting and truncating change no membership. */
  lemma RoomKeepsListed(r: seq<Top>, s: seq<Top>, limit: nat)
    requires KeepsBest(Higher, r, s, limit) && |s| <= limit
    ensures multiset(r) == multiset(s) && forall t :: t in r <==> t in s
  {
    var dropped :| multiset(r + dropped) == multiset(s)
      && forall i, j :: 0 <= i < |r| && 0 <= j < |dropped| ==> Higher(r[i], dropped[j]);
    SameLength(r + dropped, s);
    assert r + dropped == r;
    SplitMembers(r, [], s);
  }

  /** Whatever TransactionsNew leaves of the listed entries, with room a donation
      of the batch is in the top list exactly when it beat the entry the list
      ended with and exceeds every older donation of the batch. */
  lemma InTopListWithRoomIff(tops: seq<Top>, env: Env, batch: Batch, k: nat, r: seq<Top>, limit: nat)
    requires Comparable(tops, env) && DistinctRecords(batch)
    requires k < |batch| && Offered(tops, env, batch[k])
    requires KeepsBest(Higher, r, Listed(tops, env, batch), limit) && |Listed(tops, env, batch)| <= limit
    ensures HasTop(r, env.adapter + batch[k].value.id) <==>
              BeatsLast(tops, env, batch[k].value) && ExceedsEarlier(tops, env, batch, k, |batch|)
  {
    var id := env.adapter + batch[k].value.id;
    ListedIff(tops, env, batch, k);
    RoomKeepsListed(r, Listed(tops, env, batch), limit);
    SameMembersSameIds(r, Listed(tops, env, batch), id);
  }

  lemma SameMembersSameIds(a: seq<Top>, b: seq<Top>, id: string)
    requires forall t :: t in a <==> t in b
    ensures HasTop(a, id) <==> HasTop(b, id)
  {
    if HasTop(a, id) {
      var i :| 0 <= i < |a| && a[i].id == id;
      assert a[i] in b;
    }
    if HasTop(b, id) {
      var i :| 0 <= i < |b| && b[i].id == id;
      assert b[i] in a;
    }
  }

  const RAISING := Env("TON", map["TON" := 1.0], 1.0, false, 3, 30)
  const FIVE := Transaction("a", 5.0, 0)
  const TEN := Transaction("b", 10.0, 1)
  const SEVEN := Transaction("c", 7.0, 2)

  lemma RaisingOffers()
    ensures OfferTop([], RAISING, FIVE) == [TopOf(RAISING, FIVE)]
    ensures OfferTop([TopOf(RAISING, FIVE)], RAISING, TEN) == [TopOf(RAISING, FIVE), TopOf(RAISING, TEN)]
    ensures OfferTop([TopOf(RAISING, FIVE), TopOf(RAISING, TEN)], RAISING, SEVEN)
         == [TopOf(RAISING, FIVE), TopOf(RAISING, TEN)]
  {
    assert TopOf(RAISING, FIVE).id == "TONa" && TopOf(RAISING, TEN).id == "TONb";
    assert "TONa"[3] == 'a' && "TONb"[3] == 'b' && "TONc"[3] == 'c';
  }

  /** A donation dropped although it is higher than a listed one and there is
      room: each is compared with the entry appended last, not with the lowest. */
  lemma HigherDonationDropped(r: seq<Top>, limit: nat)
    requires limit >= 3
    requires KeepsBest(Higher, r, Listed([], RAISING, [Some(SEVEN), Some(TEN), Some(FIVE)]), limit)
    ensures Listed([], RAISING, [Some(SEVEN), Some(TEN), Some(FIVE)]) == [TopOf(RAISING, FIVE), TopOf(RAISING, TEN)]
    ensures |r| == 2 && TopOf(RAISING, FIVE) in r && TopOf(RAISING, SEVEN) !in r
    ensures Higher(TopOf(RAISING, SEVEN), TopOf(RAISING, FIVE))
  {
    hide OfferTop, KeepsBest;
    var batch := [Some(SEVEN), Some(TEN), Some(FIVE)];
    assert batch[..2] == [Some(SEVEN), Some(TEN)] && batch[..2][..1] == [Some(SEVEN)];
    RaisingOffers();
    var five := [TopOf(RAISING, FIVE)];
    var both := [TopOf(RAISING, FIVE), TopOf(RAISING, TEN)];
    assert Listed(both, RAISING, [Some(SEVEN)]) == Listed(both, RAISING, []) == both;
    assert Listed(five, RAISING, [Some(SEVEN), Some(TEN)]) == both;
    assert Listed([], RAISING, batch) == both;
    RoomKeepsListed(r, both, limit);
    assert TopOf(RAISING, FIVE) == both[0];
  }

  lemma TopsStayDistinct(r: seq<Top>, s: seq<Top>, limit: nat)
    requires DistinctTops(s) && KeepsBest(Higher, r, s, limit)
    ensures DistinctTops(r)
  {
    var dropped :| multiset(r + dropped) == multiset(s)
      && forall i, j :: 0 <= i < |r| && 0 <= j < |dropped| ==> Higher(r[i], dropped[j]);
    SplitMembers(r, dropped, s);
    forall i, j | 0 <= i < j < |r| ensures r[i].id != r[j].id {
      assert r[i] in s && r[j] in s;
      if r[i] == r[j] {
        TwiceInList(r + dropped, i, j);
        TopOnce(s, r[i]);
      }
    }
  }

  lemma {:induction false} TopOnce(s: seq<Top>, t: Top)
    requires DistinctTops(s)
    ensures multiset(s)[t] <= 1
  {
    if s == [] {
    } else {
      var front, last := s[..|s| - 1], s[|s| - 1];
      assert s == front + [last];
      TopOnce(front, t);
      if t == last {
        assert t !in front;
      }
    }
  }

  lemma HigherIsOrder()
    ensures IsOrder(Higher)
  {
  }

  lemma NewerIsOrder()
    ensures IsOrder(Newer)
  {
  }

  class SupportContainer {
    const maxLasts: nat
    const maxTops: nat
    var lastMessages: seq<Message>
    var topSupports: seq<Top>
    /** Every message that was ever in lastMessages. */
    ghost var history: set<Message>

    ghost predicate Valid()
      reads this
    {
      && NewestOf(lastMessages, history, maxLasts)
      && |topSupports| <= maxTops && DistinctTops(topSupports)
    }

    /** The lists are the saved ones of the last session. */
    constructor (maxLasts: nat, maxTops: nat, topSupports: seq<Top>, lastMessages: seq<Message>)
      requires NewestOf(lastMessages, Elements(lastMessages), maxLasts)
      requires |topSupports| <= maxTops && DistinctTops(topSupports)
      ensures Valid() && history == Elements(lastMessages)
      ensures this.lastMessages == lastMessages && this.topSupports == topSupports
      ensures this.maxLasts == maxLasts && this.maxTops == maxTops
    {
      this.maxLasts, this.maxTops := maxLasts, maxTops;
      this.lastMessages, this.topSupports := lastMessages, topSupports;
      history := Elements(lastMessages);
    }

    method ReviseTops(env: Env)
      modifies this`topSupports
      ensures topSupports == Revalued(old(topSupports), env)
      ensures forall t :: t in topSupports <==> exists o :: o in old(topSupports) && IsRevalued(t, o, env)
    {
      RevaluedMembers(topSupports, env);
      var all, kept := topSupports, [];
      for i := 0 to |all|
        invariant kept == Revalued(all[..i], env)
      {
        RevaluedStep(all, env, i);
        assert kept + [] == kept;
        if !(env.now - all[i].time > env.maxAge) {
          kept := kept + [AtCurrentPrice(all[i], env)];
        }
      }
      assert all[..|all|] == all;
      topSupports := kept;
    }

    method Offer(env: Env, tx: Transaction)
      modifies this`lastMessages, this`topSupports
      ensures lastMessages == OfferMessage(old(lastMessages), env, tx)
      ensures topSupports == OfferTop(old(topSupports), env, tx)
    {
      if env.now - tx.time <= env.maxAge {
        if tx.amount >= env.minAmount || env.debug {
          if !HasId(lastMessages, env.adapter + tx.id) {
            lastMessages := lastMessages + [Message(env.adapter + tx.id, tx.time)];
          }
          if !HasTop(topSupports, env.adapter + tx.id) {
            var add := |topSupports| == 0;
            if |topSupports| > 0 {
              add := Beats(env, tx, topSupports[|topSupports| - 1]);
              topSupports := Compared(topSupports, env);
            }
            if add {
              topSupports := topSupports + [TopOf(env, tx)];
            }
          }
        }
      }
    }

    method OfferAll(env: Env, transactions: Batch)
      modifies this`lastMessages, this`topSupports
      ensures lastMessages == Accepted(old(lastMessages), env, transactions)
      ensures topSupports == Listed(old(topSupports), env, transactions)
    {
      var i := |transactions|;
      assert transactions[..i] == transactions;
      while i > 0
        invariant 0 <= i <= |transactions|
        invariant Accepted(lastMessages, env, transactions[..i]) == Accepted(old(lastMessages), env, transactions)
        invariant Listed(topSupports, env, transactions[..i]) == Listed(old(topSupports), env, transactions)
      {
        i := i - 1;
        assert transactions[..i + 1][..i] == transactions[..i];
        var record := transactions[i];
        if record.Some? {
          Offer(env, record.value);
        }
      }
    }

    /** W_TransactionsNew: the new lists are the best of the old entries and the
        accepted ones; the newest-K invariant over everything ever accepted is
        part of Valid. */
    method TransactionsNew(env: Env, transactions: Batch)
      requires Valid()
      modifies this
      ensures Valid()
      ensures history == old(history) + Elements(Accepted(old(lastMessages), env, transactions))
      ensures KeepsBest(Newer, lastMessages, Accepted(old(lastMessages), env, transactions), maxLasts)
      ensures KeepsBest(Higher, topSupports, Listed(Revalued(old(topSupports), env), env, transactions), maxTops)
      // newest first, and whatever is missing is older than everything kept
      ensures forall i, j :: 0 <= i < j < |lastMessages| ==> lastMessages[i].time >= lastMessages[j].time
      ensures forall m :: m in history && m !in lastMessages ==>
                |lastMessages| == maxLasts && forall k :: k in lastMessages ==> k.time >= m.time
      // every young and large enough record of the batch has entered the history
      ensures forall i :: (0 <= i < |transactions| && transactions[i].Some?
                           && env.now - transactions[i].value.time <= env.maxAge
                           && (transactions[i].value.amount >= env.minAmount || env.debug)) ==>
                exists m :: m in history && m.id == env.adapter + transactions[i].value.id
      // and nothing else has
      ensures forall m :: m in lastMessages ==> m in old(lastMessages) || FromRecord(m, env, transactions)
      ensures forall i, j :: 0 <= i < j < |topSupports| ==>
                || topSupports[i].volume > topSupports[j].volume
                || (topSupports[i].volume == topSupports[j].volume && topSupports[i].time >= topSupports[j].time)
    {
      ghost var list, tops := lastMessages, Revalued(topSupports, env);
      RevaluedDistinct(topSupports, env);
      AcceptedGrows(list, env, transactions);
      ListedDistinct(tops, env, transactions);
      AcceptedOnlyRecords(list, env, transactions);
      forall i | 0 <= i < |transactions| && transactions[i].Some?
                 && env.now - transactions[i].value.time <= env.maxAge
                 && (transactions[i].value.amount >= env.minAmount || env.debug)
        ensures exists m :: m in Accepted(list, env, transactions) && m.id == env.adapter + transactions[i].value.id
      {
        AcceptedAllRecords(list, env, transactions, i);
      }
      ReviseTops(env);
      OfferAll(env, transactions);
      ghost var merged, listed := lastMessages, topSupports;
      history := history + Elements(merged);
      NewerIsOrder();
      lastMessages := SortAndTruncate(lastMessages, Newer, maxLasts);
      KeepsMembers(Newer, lastMessages, merged, maxLasts);
      BatchKeepsNewest(list, old(history), merged, lastMessages, maxLasts);
      HigherIsOrder();
      topSupports := SortAndTruncate(topSupports, Higher, maxTops);
      TopsStayDistinct(topSupports, listed, maxTops);
    }
  }

  lemma KeepsMembers<T(!new)>(geq: (T, T) -> bool, r: seq<T>, s: seq<T>, limit: nat)
    requires KeepsBest(geq, r, s, limit)
    ensures forall x :: x in r ==> x in s
  {
    var dropped :| multiset(r + dropped) == multiset(s)
      && forall i, j :: 0 <= i < |r| && 0 <= j < |dropped| ==> geq(r[i], dropped[j]);
    SplitMembers(r, dropped, s);
  }
}
